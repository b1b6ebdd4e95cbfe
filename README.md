# Kids text editor: colour codec, pointer state, letter colours and size input

A Dafny model of the deterministic logic inside four React components of the
kids text editor:

- **Advanced colour picker** (`components/advanced-color-picker.tsx`):
  - `hexToRgb` / `rgbToHex` and the `#RRGGBB` notation (section 5.2 of CSS Color Module Level 4);
  - the derived HSV, HSL (section 7 of CSS Color Module Level 4) and CMYK views;
  - the pointer state machine, as the class `Picker`. Its fields are `isDragging`, `isSliderDragging`, `position`, `sliderPosition`, `currentHue` and `currentColor`. Mouse presses, moves and releases update them, and so does the effect that loads the host's `value`.
- **Editor** (`components/kids-text-editor.tsx`):
  - the rainbow-mode per-letter colour list, kept in step with the text by `handleTextChange` (class `Editor`);
  - the per-letter colour fallback;
  - the body of the print page;
  - the font-size normalisation.
- **Colour picker** (`components/color-picker.tsx`):
  - hex validation;
  - `#`-prefixing;
  - the custom colour field (class `CustomColor`);
  - preset clicks and highlighting.
- **Size selector** (`components/size-selector.tsx`):
  - the digit filter;
  - the 8–72 range check and the `"<n>px"` formatting;
  - the select box's display value;
  - the select / apply / Enter handlers (class `Selector`).

The JavaScript `Number.parseInt` (no radix) and `String(n)` calls that the size selector relies on are modelled in `JsNumber`.

Constants taken from the source:

| constant | source | value |
|---|---|---|
| `KidsTextEditor.Palette` | components/kids-text-editor.tsx:23-32 | the eight rainbow colours, in order |
| `ColorPicker.Presets` | components/color-picker.tsx:21-29 | the seven swatch values, in order |
| `SizeSelector.SizeOptions` | components/size-selector.tsx:20-26 | the four preset sizes and "custom", in order |

Modules:

| module | file | content |
|---|---|---|
| `Text` | text.dfy | `Option`, character classes, hex digit values, prefix and suffix tests |
| `ColorCodec` | color_codec.dfy | `Channel` (0..255), `Rgb`, `hexToRgb`, `rgbToHex`, both round trips |
| `ColorSpaces` | color_spaces.dfy | `rgbToHsv`, `rgbToHsl`, `rgbToCmyk` in exact `real` arithmetic |
| `AdvancedColorPicker` | advanced_color_picker.dfy | clamping, hue mapping, the HEX field, class `Picker` |
| `KidsTextEditor` | kids_text_editor.dfy | palette, letter colours, print body, font size, class `Editor` |
| `ColorPicker` | color_picker.dfy | `validateHex`, `#` prefixing, presets, class `CustomColor` |
| `JsNumber` | js_number.dfy | `Number.parseInt(s)` and `String(n)` on integers |
| `SizeSelector` | size_selector.dfy | digit filter, range check, display value, class `Selector` |

Callbacks such as `onChange` are modelled as the value a method returns: an `Option<string>` that is `None` when nothing is emitted. Pixel sampling of the canvas (`getColorAtPosition`) is a parameter `sample: Position -> Rgb`. A bounding rectangle is an `Option<Rect>`, which is `None` when its wrapper element is not mounted.

## Model

| member | source | states |
|---|---|---|
| ColorCodec.HexToRgb | components/advanced-color-picker.tsx:47-56 | `hexToRgb`: a string matching the pattern gives the three base-16 pair values of its digits, anything else the fallback red; its cases and both round trips are the lemmas below |
| ColorCodec.HexToRgbCases | components/advanced-color-picker.tsx:47-56 | a string that is not an optional `#` followed by six hex digits parses as the fallback red; an accepted string parses as its canonical lower-case form does, so the case of the digits does not matter |
| ColorCodec.MatchesHexPattern | components/advanced-color-picker.tsx:48 | the test of `/^#?([a-f\d]{2})([a-f\d]{2})([a-f\d]{2})$/i`: six hex digits in either case, with or without one leading `#`; it is the acceptance condition in the contracts of `RgbToHex`, `HexFieldInput`, `LongFormParses` and `PresetsAreLongHex` |
| ColorCodec.PairValue | components/advanced-color-picker.tsx:51-53 | `Number.parseInt(result[i], 16)` of a two-digit pair: 16 times the first digit plus the second, always a channel in 0..255 |
| ColorCodec.HexBody | components/advanced-color-picker.tsx:48 | the captured digits of an accepted string are six hex digits |
| ColorCodec.ToHexString | components/advanced-color-picker.tsx:64 | `toString(16)` of a natural number is non-empty lower-case hex, and it is one digit exactly when the number is below 16 |
| ColorCodec.ChannelHex | components/advanced-color-picker.tsx:62-66 | a channel is printed as exactly two lower-case hex digits whose base-16 value is the channel, so values below 16 are zero-padded |
| ColorCodec.RgbToHex | components/advanced-color-picker.tsx:59-69 | the result is `#` and six lower-case hex digits, and `hexToRgb` accepts it |
| ColorCodec.CanonicalHex | components/advanced-color-picker.tsx:47-69 | the canonical spelling is seven characters starting with `#` |
| ColorCodec.HexToRgbOfRgbToHex | components/advanced-color-picker.tsx:47-69 | `hexToRgb(rgbToHex(c)) == c` for every colour with channels in 0..255 |
| ColorCodec.RgbToHexOfHexToRgb | components/advanced-color-picker.tsx:47-69 | `rgbToHex(hexToRgb(s))` is the lower-case, `#`-prefixed form of every accepted `s` |
| ColorCodec.PairValueOfLower | components/advanced-color-picker.tsx:51-53 | `parseInt(pair, 16)` is case-insensitive |
| ColorCodec.ChannelHexUnique | components/advanced-color-picker.tsx:62-66 | a lower-case pair is the printed form of its own value, and no other pair is |
| ColorSpaces.Max3 | components/advanced-color-picker.tsx:77 | `Math.max(r, g, b)` is one of its arguments and at least each of them |
| ColorSpaces.Min3 | components/advanced-color-picker.tsx:78 | `Math.min(r, g, b)` is one of its arguments and at most each of them |
| ColorSpaces.Unit | components/advanced-color-picker.tsx:73-75 | `r /= 255` (and the same at 108-110): a channel as a fraction in [0, 1] |
| ColorSpaces.Round | components/advanced-color-picker.tsx:137-139 | `Math.round` of a non-negative value is the integer within a half of it, with halves rounded up |
| ColorSpaces.UnitOfExtremes | components/advanced-color-picker.tsx:73-78 | dividing the channels by 255 keeps their order, so `Math.max` and `Math.min` of the fractions are the fractions of the largest and smallest channel |
| ColorSpaces.HueSixths | components/advanced-color-picker.tsx:84-96 | the `switch (max)` of a non-grey colour, taking the first of r, g, b equal to the maximum; its range is `HueSixthsRange` |
| ColorSpaces.RgbToHsv | components/advanced-color-picker.tsx:72-104 | `rgbToHsv` on channels divided by 255, with s = 0 when max = 0 and h = 0 for greys; its ranges, grey case and examples are the lemmas below |
| ColorSpaces.RgbToHsl | components/advanced-color-picker.tsx:107-141 | `rgbToHsl` with both branches of the `l > 0.5` saturation and every output rounded; its ranges, grey case, examples and agreement with the HSV hue are the lemmas below |
| ColorSpaces.RgbToCmyk | components/advanced-color-picker.tsx:144-161 | `rgbToCmyk` with the black special case (0, 0, 0, 100) and k the smallest complement; its ranges, examples and relation to the HSV value are the lemmas below |
| ColorSpaces.HueSixthsRange | components/advanced-color-picker.tsx:84-96 | for a non-grey colour, the hue before `h /= 6` lies in [0, 6) for each branch of the `switch (max)` |
| ColorSpaces.RgbToHsvRanges | components/advanced-color-picker.tsx:72-104 | h lies in [0, 360), s and v lie in [0, 100], and v = 100 · max / 255 |
| ColorSpaces.RgbToHsvAchromatic | components/advanced-color-picker.tsx:81-97 | s is 0 exactly when r = g = b, and h is then 0 |
| ColorSpaces.RgbToHsvExamples | components/advanced-color-picker.tsx:72-104 | red gives (0, 100, 100), black gives (0, 0, 0), white gives (0, 0, 100) and blue gives (240, 100, 100) |
| ColorSpaces.RgbToHslRanges | components/advanced-color-picker.tsx:107-141 | the outputs are integers with h in [0, 360] and s, l in [0, 100] (both branches of `l > 0.5`); l = round(50 · (max + min) / 255); greys have h = s = 0 |
| ColorSpaces.HslHueIsRoundedHsvHue | components/advanced-color-picker.tsx:72-141 | the HSL hue is the HSV hue rounded |
| ColorSpaces.RgbToHslExamples | components/advanced-color-picker.tsx:107-141 | white gives (0, 0, 100), black gives (0, 0, 0) and red gives (0, 100, 50) |
| ColorSpaces.RgbToCmykExamples | components/advanced-color-picker.tsx:144-161 | pure black is the special case (0, 0, 0, 100), and white gives (0, 0, 0, 0) |
| ColorSpaces.RgbToCmykRanges | components/advanced-color-picker.tsx:144-161 | away from black, all four inks lie in [0, 100], k = round(100 · (1 − max / 255)), and every channel equal to the maximum gets no ink |
| ColorSpaces.InkPercent | components/advanced-color-picker.tsx:155-157 | one ink as `Math.round(((x - k) / (1 - k)) * 100)` for k below 1; black, the only colour with k = 1, takes the special case at 145-147, so the fallback to 0 for a NaN quotient never applies and is not modelled; its range is `InkPercentRange` |
| ColorSpaces.InkPercentRange | components/advanced-color-picker.tsx:155-157 | each of c, m and y lies in [0, 100], and it is 0 when its channel's complement equals k |
| ColorSpaces.CmykKeyIsComplementOfValue | components/advanced-color-picker.tsx:72-161 | the CMYK key is round(100 − HSV value) for every colour, black included |
| ColorSpaces.RgbToCmykGrey | components/advanced-color-picker.tsx:144-161 | a grey gets no c, m or y ink |
| AdvancedColorPicker.Clamp | components/advanced-color-picker.tsx:232 | `Math.max(0, Math.min(v, limit))` lies in [0, limit] and leaves values already inside unchanged |
| AdvancedColorPicker.CrosshairAt | components/advanced-color-picker.tsx:232-233 | the crosshair lies in [0, width] × [0, height] |
| AdvancedColorPicker.SliderOffsetAt | components/advanced-color-picker.tsx:246 | the slider handle offset lies in [0, width] |
| AdvancedColorPicker.HueAt | components/advanced-color-picker.tsx:248 | `(x / rect.width) * 360` for a width above zero; its range and monotonicity are `SliderHueRangeAndMonotone` |
| AdvancedColorPicker.SliderHueAt | components/advanced-color-picker.tsx:246-248 | the hue a pointer selects on the slider: the clamped offset mapped by `HueAt`; see `SliderHueRangeAndMonotone` |
| AdvancedColorPicker.ClampMonotone | components/advanced-color-picker.tsx:232 | clamping is non-decreasing in the pointer coordinate |
| AdvancedColorPicker.SliderHueRangeAndMonotone | components/advanced-color-picker.tsx:246-248 | the slider hue 360 · x / width lies in [0, 360] (width > 0), is 0 at or left of the left edge and 360 at or right of the right edge, and never decreases as the pointer moves right |
| AdvancedColorPicker.UnitRatio | components/advanced-color-picker.tsx:248 | an offset on a surface is a fraction of its width in [0, 1], and it is 0 and 1 at the two edges |
| AdvancedColorPicker.CrosshairClampsOutside | components/advanced-color-picker.tsx:257-258 | a pointer above and left of the surface puts the crosshair at its corner (0, 0) |
| AdvancedColorPicker.SliderOffsetForHue | components/advanced-color-picker.tsx:328 | the slider offset for a non-negative hue is non-negative |
| AdvancedColorPicker.SliderOffsetForHueInverse | components/advanced-color-picker.tsx:244-248 | the offset the load effect gives a hue in [0, 360) lies on the slider, and on a slider whose bounding width equals its `clientWidth`, a press at that offset lands on it unclamped and selects the same hue |
| AdvancedColorPicker.HexFieldInput | components/advanced-color-picker.tsx:382-387 | a typed value is passed on exactly when it is `#` and six hex digits, and `hexToRgb` then accepts it |
| AdvancedColorPicker.Picker.constructor | components/advanced-color-picker.tsx:34-39 | initial state: no drag, crosshair and slider at 0, hue 0, colour red, and no value loaded yet |
| AdvancedColorPicker.Picker.PickAt | components/advanced-color-picker.tsx:232-237 | moves the crosshair to the clamped pointer, takes the sampled colour, and returns its hex spelling |
| AdvancedColorPicker.Picker.SlideTo | components/advanced-color-picker.tsx:246-249 | moves the handle to the clamped pointer and sets the hue from it; the hue stays in [0, 360] |
| AdvancedColorPicker.Picker.GradientMouseDown | components/advanced-color-picker.tsx:228-239 | sets the drag flag; with the wrapper mounted it sets the crosshair and colour and emits their hex; the slider and hue do not change |
| AdvancedColorPicker.Picker.SliderMouseDown | components/advanced-color-picker.tsx:242-251 | sets the slider drag flag; with the wrapper mounted it sets only the slider position and hue; the crosshair and colour do not change and nothing is emitted |
| AdvancedColorPicker.Picker.MouseMove | components/advanced-color-picker.tsx:254-272 | each drag applies only while its flag is set and its wrapper is mounted; otherwise its part of the state is unchanged and nothing is emitted |
| AdvancedColorPicker.Picker.MouseUp | components/advanced-color-picker.tsx:274-277 | clears both drag flags |
| AdvancedColorPicker.Picker.LoadValue | components/advanced-color-picker.tsx:321-330 | a render with `value`: when it differs from the value last loaded, colour = hexToRgb(value) and hue = rgbToHsv(colour).h, the slider follows the hue when mounted and the crosshair never moves; with an unchanged `value` (the `[value]` dependency) nothing changes |
| AdvancedColorPicker.PressThenEcho | components/advanced-color-picker.tsx:228-239 | a gradient press whose emitted hex is rendered back as `value` keeps the picked colour; the hue becomes that colour's hue when the hex differs from the value last loaded, and stays as it was when it is the same |
| KidsTextEditor.RainbowChoice | components/kids-text-editor.tsx:82-90 | the colours `getRandomColor` can return: the first palette colour before mount, afterwards the text colour or any of the eight palette colours |
| KidsTextEditor.LetterColor | components/kids-text-editor.tsx:154 | letter i uses `letterColors[i]` when that entry exists and is non-empty, otherwise the text colour |
| KidsTextEditor.LetterColorExtend | components/kids-text-editor.tsx:97-102 | extending the list keeps the colour of every letter it already covered |
| KidsTextEditor.LetterColorTruncate | components/kids-text-editor.tsx:103-106 | truncating the list keeps the colour of every letter before the cut |
| KidsTextEditor.CharMarkup | components/kids-text-editor.tsx:152-154 | one character of the rainbow page: `<br>` for a newline, otherwise a span in the letter colour holding `&nbsp;` for a space or the character itself |
| KidsTextEditor.RainbowBody | components/kids-text-editor.tsx:148-156 | the rainbow page body: the markup of every character in order, character i in its letter colour; see `RainbowBodyStep`, `RainbowBodyPrefix` and the congruence lemmas |
| KidsTextEditor.PlainBody | components/kids-text-editor.tsx:157 | `text.replace(/\n/g, "<br>")`; see `PlainBodyNewlines` and `PlainBodyConcat` |
| KidsTextEditor.PrintBody | components/kids-text-editor.tsx:147-157 | the page body: rainbow markup in rainbow mode, the plain body otherwise; see `PrintBodyAppend` |
| KidsTextEditor.PrintBodyAppend | components/kids-text-editor.tsx:147-157 | in either mode, the page for a text is a prefix of the page for that text with more typed after it |
| KidsTextEditor.RainbowBodyPrefix | components/kids-text-editor.tsx:147-156 | the rainbow print body of a prefix of the text is a prefix of the body, so characters are emitted in order |
| KidsTextEditor.RainbowBodyStep | components/kids-text-editor.tsx:149-156 | the recursive case of the body unfolded (one more character appends exactly its own markup, in its own letter colour) and, from it, the prefix step that `RainbowBodyPrefix` builds on |
| KidsTextEditor.RainbowBodyCongruent | components/kids-text-editor.tsx:154 | the rainbow body depends on the colour list only through each letter's colour |
| KidsTextEditor.RainbowBodyIgnoresExtraColors | components/kids-text-editor.tsx:149-156 | colours past the end of the text never reach the print body |
| KidsTextEditor.PlainBodyNewlines | components/kids-text-editor.tsx:157 | no newline survives plain mode, and a text without newlines is printed unchanged |
| KidsTextEditor.PlainBodyConcat | components/kids-text-editor.tsx:157 | plain mode works piecewise: the body of a concatenation is the concatenation of the bodies |
| KidsTextEditor.NormalizedFontSize | components/kids-text-editor.tsx:185 | the result ends in `px`; `px` is appended exactly when the size does not already end in it |
| KidsTextEditor.NormalizedFontSizeIdempotent | components/kids-text-editor.tsx:185 | normalising twice is normalising once |
| KidsTextEditor.Editor.constructor | components/kids-text-editor.tsx:13-19 | initial state: empty text, 24px, `#FF5733`, rainbow off, no colours, not mounted |
| KidsTextEditor.Editor.Mount | components/kids-text-editor.tsx:35-37 | mounting sets the client flag |
| KidsTextEditor.Editor.RandomColor | components/kids-text-editor.tsx:82-90 | before mount the first palette colour; afterwards the text colour or one of the eight palette colours |
| KidsTextEditor.Editor.HandleTextChange | components/kids-text-editor.tsx:92-107 | the text becomes the new text; in rainbow mode with a longer text the list grows to the text length, keeping the old entries as a prefix, and every added entry is a valid random choice; otherwise a list longer than the new text is truncated to it, else unchanged; the list never gets longer than the text |
| ColorPicker.ValidateHex | components/color-picker.tsx:31-34 | the anchored regular expression: `#` followed by exactly six or exactly three hex digits, in either case; see `CustomInputAccepted` |
| ColorPicker.WithHash | components/color-picker.tsx:41 | the result starts with `#`; `#` is added exactly when it is missing |
| ColorPicker.WithHashIdempotent | components/color-picker.tsx:51 | prefixing twice is prefixing once |
| ColorPicker.CustomInputAccepted | components/color-picker.tsx:31-44 | an input is valid exactly when, after at most one leading `#`, it is three or six hex digits in either case |
| ColorPicker.LongFormParses | components/color-picker.tsx:31-34 | a valid six-digit colour is also accepted by the advanced picker's `hexToRgb` |
| ColorPicker.ShortFormFallsBack | components/color-picker.tsx:31-34 | a valid three-digit colour is read by the advanced picker's `hexToRgb` as the fallback red |
| ColorPicker.PresetClick | components/color-picker.tsx:63 | a swatch click emits its preset unless the picker is disabled; see `PresetsAreLongHex` |
| ColorPicker.Highlighted | components/color-picker.tsx:65 | a swatch is highlighted when the value equals its preset exactly, case included; see `AtMostOneHighlighted` |
| ColorPicker.PresetsAreLongHex | components/color-picker.tsx:21-29 | every preset is a seven-character `#RRGGBB` string; what a click emits passes `validateHex` and `hexToRgb`'s pattern, and rendered back as `value` it highlights the clicked swatch and no other |
| ColorPicker.AtMostOneHighlighted | components/color-picker.tsx:65 | highlighting is exact string equality, and at most one preset is highlighted |
| ColorPicker.CustomColor.constructor | components/color-picker.tsx:18-19 | initial state ("#000000", valid) satisfies the validity invariant |
| ColorPicker.CustomColor.HandleCustomColorChange | components/color-picker.tsx:36-46 | stores the raw input and sets the flag to the validity of its `#`-prefixed form, keeping the invariant |
| ColorPicker.CustomColor.ApplyCustomColor | components/color-picker.tsx:48-54 | emits exactly when the input is valid and the picker is enabled; what it emits is the `#`-prefixed input and passes `validateHex` |
| JsNumber.ParseInt | components/size-selector.tsx:47 | `Number.parseInt(s)` without a radix: skip white space, take one sign, read `0x` as radix 16, then the longest digit run, NaN (`None`) when it is empty; see `ParseIntOfDigits` and `ParseIntOfNatToDecimal` |
| JsNumber.NumberToString | components/size-selector.tsx:33 | `String(x)` of what `parseInt` returns: "NaN", or the decimal digits with a leading `-` when negative |
| JsNumber.IsJsWhitespace | components/size-selector.tsx:47 | the characters `parseInt` skips before the number: the full ECMAScript WhiteSpace set (tab, vertical tab, form feed, space, no-break space, zero-width no-break space and the Unicode space separators) plus the LineTerminator set (line feed, carriage return, line and paragraph separators) |
| JsNumber.TrimStart | components/size-selector.tsx:47 | `parseInt` skips exactly the leading white space: the removed prefix is all white space and what is left does not start with white space |
| JsNumber.LeadingDigits | components/size-selector.tsx:47 | the digits `parseInt` reads are the longest run of radix digits at the start |
| JsNumber.DigitsValue | components/size-selector.tsx:47 | the value `parseInt` computes from the digit run it read, most significant digit first; `DigitsValueOfNatToDecimal` and `NatToDecimalOfDigitsValue` tie it to `String(n)` |
| JsNumber.NatToDecimal | components/size-selector.tsx:50 | `String(n)` is non-empty decimal digits with no leading zero except for 0 |
| JsNumber.DigitsValueOfNatToDecimal | components/size-selector.tsx:50 | the digits of `String(n)` have the value n |
| JsNumber.ParseIntOfDigits | components/size-selector.tsx:47 | a non-empty digit string, leading zeros included, parses as its value |
| JsNumber.ParseIntOfNatToDecimal | components/size-selector.tsx:47-50 | `parseInt(String(n)) == n` |
| JsNumber.NatToDecimalOfDigitsValue | components/size-selector.tsx:47-50 | a digit string without leading zeros is `String` of its own value |
| SizeSelector.DigitFilter | components/size-selector.tsx:41 | the result is digits only and no longer than the input |
| SizeSelector.DigitFilterOfDigits | components/size-selector.tsx:41 | a digit string passes the filter unchanged |
| SizeSelector.DigitFilterIdempotent | components/size-selector.tsx:41 | filtering twice is filtering once |
| SizeSelector.DigitFilterConcat | components/size-selector.tsx:41 | the filter works character by character and keeps order |
| SizeSelector.DigitFilterNoDigits | components/size-selector.tsx:41 | an input without digits filters to the empty string |
| SizeSelector.CustomSizeEmission | components/size-selector.tsx:45-54 | what `applyCustomSize` emits: nothing for an empty field or a value outside [8, 72], otherwise `String` of the parsed value followed by `px`; see `CustomSizeEmissionOfDigits` |
| SizeSelector.CustomSizeEmissionOfDigits | components/size-selector.tsx:45-54 | for a digit string, a size is applied exactly when the field is non-empty and its value is in [8, 72], and it is applied as the value's canonical decimal followed by `px` |
| SizeSelector.LeadingZerosDropped | components/size-selector.tsx:47-50 | "008" applies as "8px" |
| SizeSelector.RangeBounds | components/size-selector.tsx:49 | the range is inclusive at both ends |
| SizeSelector.SeedOfPixelSize | components/size-selector.tsx:32-33 | choosing "custom" for "<n>px" seeds the field with the number n |
| SizeSelector.SeedFromPixelSize | components/size-selector.tsx:32-33 | choosing "custom" while the size is "30px" seeds the field with "30" |
| SizeSelector.ReplaceFirst | components/size-selector.tsx:32 | `String.prototype.replace` with a string pattern: only the first occurrence is replaced; see `ReplaceFirstPxSuffix` |
| SizeSelector.SeedCustomSize | components/size-selector.tsx:32-33 | the field's seed when "custom" is chosen: `parseInt` of the size with its first `px` removed, as a string; see `SeedOfPixelSize` |
| SizeSelector.ReplaceFirstPxSuffix | components/size-selector.tsx:32 | in digits followed by `px`, the first `px` removed is the suffix |
| SizeSelector.DisplayValue | components/size-selector.tsx:63-76 | its three ensures spell out the three branches of `getDisplayValue` (a preset as itself, another value ending in `px` as "custom", anything else as it is); what they imply is `DisplayValueOfPixelSize` |
| SizeSelector.DisplayValueOfPixelSize | components/size-selector.tsx:63-76 | every pixel size is shown as one of the select box's own options |
| SizeSelector.AppliedSizeRoundTrip | components/size-selector.tsx:28-76 | an applied size ends in `px`, is kept as it is by the editor's normalisation, is shown as a preset or as "custom", and seeding the field from it applies the same size again |
| SizeSelector.Selector.constructor | components/size-selector.tsx:17-18 | initial state: empty field, hidden |
| SizeSelector.Selector.HandleSelectChange | components/size-selector.tsx:28-38 | "custom" shows the field, seeds it from the current size and emits nothing; a preset hides the field and is emitted unchanged |
| SizeSelector.Selector.HandleCustomSizeChange | components/size-selector.tsx:40-43 | the field becomes the digits of the input |
| SizeSelector.Selector.ApplyCustomSize | components/size-selector.tsx:45-54 | emits the applied size and hides the field when there is one; otherwise emits nothing and leaves the field's visibility as it was |
| SizeSelector.Selector.HandleKeyDown | components/size-selector.tsx:56-60 | Enter acts as apply; every other key does nothing |

## Left out

- Canvas drawing (`drawSlider`, `drawGradient`) and pixel sampling through `getImageData` depend on the browser's rasteriser. Sampling is the parameter `sample`, which returns channels in 0..255.
- The `getColorAtPosition` fallback to black when the canvas or its context is missing is part of that parameter.
- Floating point: HSV, HSL, CMYK and the hue mapping use exact `real` arithmetic, and `Math.round` is `Round` on non-negative values. No claim is made that the results agree bit for bit with JavaScript doubles.
- `Math.random` in `getRandomColor` is a nondeterministic choice. Its distribution, with the text colour drawn about 30% of the time, is not modelled.
- Storage and I/O are not modelled, since they contain no logic beyond the calls themselves:
  - localStorage loading, saving and the autosave timer;
  - the print window (`window.open`, `document.write`, `print`), of which only the body string is modelled;
  - clipboard writes;
  - toast notifications.
- `rgbToHex` with channels outside 0..255 or not integers: `Channel` is 0..255, which is what `hexToRgb` and canvas pixels deliver.
- AdvancedColorPicker.Picker.SlideTo: requires a slider width above zero. The source divides by the width with no guard, so a zero width would produce NaN, which the model does not represent.
- A hue change does not re-sample the crosshair colour. The source only redraws the gradient when the hue changes, and the model leaves `currentColor` untouched accordingly.
- React specifics are not modelled: render batching and stale closures in the window listeners. Each handler is modelled as one atomic state change. Of the effects, only the `[value]` dependency of the load effect is modelled (the `loadedValue` field); the canvas effects are left out with the drawing.
- AdvancedColorPicker.SliderOffsetForHueInverse: the load effect places the handle using the slider's integer `clientWidth`, while a press measures the fractional bounding width. The lemma covers only a slider whose two widths agree; when they differ, pressing at the placed handle can select a slightly different hue.
- JsNumber.ParseInt: covers the inputs the size selector can pass it: optional white space, a sign, an optional `0x` prefix and a run of digits. Integers above 2^53 lose precision in JavaScript but are exact here.
- JsNumber.NumberToString: writes plain digits, while JavaScript uses exponent notation from 10^21. The presets and the applied sizes 8..72 never reach that bound, but a stored size such as "1000000000000000000000px" would seed the custom field with "1e+21" in JavaScript and with the full digit string here.
- KidsTextEditor.Editor.HandleTextChange, KidsTextEditor.RainbowBody, KidsTextEditor.LetterColor and SizeSelector.DigitFilter count characters as Unicode scalar values, while the source counts UTF-16 code units (`length`, `split("")`, indexing and the non-`u` regular expression). A character outside the Basic Multilingual Plane, such as an emoji, is one letter here but two in the source: typed in rainbow mode it receives one colour and one span here, where the source adds two colours and prints two spans each holding half of a surrogate pair.
- Text the print body inserts as HTML is not escaped, exactly as in the source, and the model does not escape it either.
- Rendering of JSX, CSS and the on-screen rainbow spans is not modelled, apart from the per-letter colour rule they share with printing.
