/**
 * The toolbar's font-size selector: four preset sizes and a custom size
 * field that keeps only digits and applies sizes from 8 to 72 pixels.
 */
module SizeSelector {
  import opened Text
  import opened JsNumber
  import KidsTextEditor

  /** The select box's options in order; the last one opens the custom field. */
  const SizeOptions: seq<string> := ["18px", "24px", "32px", "42px", "custom"]

  const Custom: string := "custom"

  /** `s.replace(/[^0-9]/g, "")`: the digits of `s`, in order. */
  function DigitFilter(s: string): (t: string)
    ensures AllDecimal(t) && |t| <= |s|
    decreases |s|
  {
    if s == [] then [] else (if IsDecimalDigit(s[0]) then [s[0]] else []) + DigitFilter(s[1..])
  }

  /** A string of digits passes the filter unchanged, so filtering twice is filtering once. */
  lemma {:induction false} DigitFilterOfDigits(s: string)
    requires AllDecimal(s)
    ensures DigitFilter(s) == s
    decreases |s|
  {
    if s != [] {
      DigitFilterOfDigits(s[1..]);
    }
  }

  lemma DigitFilterIdempotent(s: string)
    ensures DigitFilter(DigitFilter(s)) == DigitFilter(s)
  {
    DigitFilterOfDigits(DigitFilter(s));
  }

  /** The filter works character by character: it distributes over concatenation. */
  lemma {:induction false} DigitFilterConcat(a: string, b: string)
    ensures DigitFilter(a + b) == DigitFilter(a) + DigitFilter(b)
    decreases |a|
  {
    if a == [] {
      assert a + b == b;
    } else {
      assert (a + b)[1..] == a[1..] + b;
      DigitFilterConcat(a[1..], b);
    }
  }

  /** A non-digit character is dropped, so a string without digits filters to nothing. */
  lemma {:induction false} DigitFilterNoDigits(s: string)
    requires forall i :: 0 <= i < |s| ==> !IsDecimalDigit(s[i])
    ensures DigitFilter(s) == ""
    decreases |s|
  {
    if s != [] {
      DigitFilterNoDigits(s[1..]);
    }
  }

  /** What `applyCustomSize` passes to `onChange` for the current field contents, if anything. */
  function CustomSizeEmission(customSize: string): Option<string> {
    if customSize == "" then None
    else
      match ParseInt(customSize)
      case None => None
      case Some(n) => if 8 <= n <= 72 then Some(NatToDecimal(n) + "px") else None
  }

  /** For a digit string: a size is applied exactly when the field is non-empty and its value is in [8, 72], written without leading zeros. */
  lemma CustomSizeEmissionOfDigits(s: string)
    requires AllDecimal(s)
    ensures CustomSizeEmission(s).Some? <==> s != "" && 8 <= DigitsValue(s, 10) <= 72
    ensures CustomSizeEmission(s).Some? ==> CustomSizeEmission(s).value == NatToDecimal(DigitsValue(s, 10)) + "px"
  {
    if s != "" {
      ParseIntOfDigits(s);
    }
  }

  /** Leading zeros are dropped: "008" applies as "8px". */
  lemma LeadingZerosDropped(s: string)
    requires s == "008"
    ensures CustomSizeEmission(s) == Some("8px")
  {
    assert DigitsValue("0", 10) == 0 by { assert "0"[..0] == ""; }
    assert DigitsValue("00", 10) == 0 by { assert "00"[..1] == "0"; }
    assert DigitsValue(s, 10) == 8 by { assert s[..2] == "00"; }
    CustomSizeEmissionOfDigits(s);
    assert NatToDecimal(8) + "px" == "8px";
  }

  /** The bounds are inclusive: 8 and 72 apply, 7 and 73 do not. */
  lemma RangeBounds(n: nat)
    ensures CustomSizeEmission(NatToDecimal(n)) == if 8 <= n <= 72 then Some(NatToDecimal(n) + "px") else None
  {
    DigitsValueOfNatToDecimal(n);
    CustomSizeEmissionOfDigits(NatToDecimal(n));
  }

  /** `s.replace(pattern, replacement)` with a string pattern: only the first occurrence is replaced. */
  function ReplaceFirst(s: string, pattern: string, replacement: string): string
    requires pattern != []
    decreases |s|
  {
    if |s| < |pattern| then s
    else if s[..|pattern|] == pattern then replacement + s[|pattern|..]
    else [s[0]] + ReplaceFirst(s[1..], pattern, replacement)
  }

  /** The field's initial contents when "custom" is chosen: the integer at the start of the size with its first "px" removed. */
  function SeedCustomSize(value: string): string {
    NumberToString(ParseInt(ReplaceFirst(value, "px", "")))
  }

  /** In a digit string followed by "px", the first "px" is the suffix. */
  lemma {:induction false} ReplaceFirstPxSuffix(d: string)
    requires AllDecimal(d)
    ensures ReplaceFirst(d + "px", "px", "") == d
    decreases |d|
  {
    if d != [] {
      assert (d + "px")[1..] == d[1..] + "px";
      ReplaceFirstPxSuffix(d[1..]);
    }
  }

  /** The value shown in the select box: a preset as itself, any other pixel size as "custom". */
  function DisplayValue(value: string): (shown: string)
    ensures value in SizeOptions && value != Custom ==> shown == value
    ensures !(value in SizeOptions && value != Custom) && EndsWith(value, "px") ==> shown == Custom
    ensures !(value in SizeOptions && value != Custom) && !EndsWith(value, "px") ==> shown == value
  {
    if value in SizeOptions && value != Custom then value
    else if EndsWith(value, "px") then Custom
    else value
  }

  /** Every option the select box shows for a size ending in "px" is one of its own options. */
  lemma DisplayValueOfPixelSize(value: string)
    requires EndsWith(value, "px")
    ensures DisplayValue(value) in SizeOptions
  {
  }

  /**
   * A size the field applies is a canonical pixel size: the editor keeps it
   * as it is, the select box shows it as a preset or as "custom", and
   * choosing "custom" again seeds the field with its number, which applies
   * the same size.
   */
  lemma AppliedSizeRoundTrip(customSize: string)
    requires CustomSizeEmission(customSize).Some?
    ensures var e := CustomSizeEmission(customSize).value;
      && EndsWith(e, "px")
      && KidsTextEditor.NormalizedFontSize(e) == e
      && DisplayValue(e) == (if e in SizeOptions then e else Custom)
      && CustomSizeEmission(SeedCustomSize(e)) == Some(e)
  {
    var n := ParseInt(customSize).value;
    var d := NatToDecimal(n);
    var e := d + "px";
    assert CustomSizeEmission(customSize).value == e && 8 <= n <= 72;
    assert e[|e| - 2..] == "px";
    SeedOfPixelSize(n);
    RangeBounds(n);
  }

  /** Choosing "custom" for a size written as a number and "px" seeds the field with the number. */
  lemma SeedOfPixelSize(n: nat)
    ensures SeedCustomSize(NatToDecimal(n) + "px") == NatToDecimal(n)
  {
    ReplaceFirstPxSuffix(NatToDecimal(n));
    ParseIntOfNatToDecimal(n);
  }

  /** Choosing "custom" while the size is "30px" seeds the field with "30". */
  lemma SeedFromPixelSize(value: string)
    requires value == "30px"
    ensures SeedCustomSize(value) == "30"
  {
    assert NatToDecimal(30) == "30";
    assert value == NatToDecimal(30) + "px";
    ReplaceFirstPxSuffix("30");
    ParseIntOfNatToDecimal(30);
  }

  class Selector {
    var customSize: string
    var showCustomInput: bool

    constructor ()
      ensures customSize == "" && !showCustomInput
    {
      customSize, showCustomInput := "", false;
    }

    /** Choosing an option: "custom" opens the field seeded from the current size; a preset closes it and is emitted. */
    method HandleSelectChange(value: string, newValue: string) returns (emitted: Option<string>)
      modifies this
      ensures newValue == Custom ==> showCustomInput && customSize == SeedCustomSize(value) && emitted.None?
      ensures newValue != Custom ==> !showCustomInput && customSize == old(customSize) && emitted == Some(newValue)
    {
      if newValue == Custom {
        showCustomInput := true;
        customSize := SeedCustomSize(value);
        emitted := None;
      } else {
        showCustomInput := false;
        emitted := Some(newValue);
      }
    }

    method HandleCustomSizeChange(input: string)
      modifies this`customSize
      ensures customSize == DigitFilter(input)
    {
      customSize := DigitFilter(input);
    }

    /** Applies the field: a size in range is emitted and closes the field; otherwise nothing changes. */
    method ApplyCustomSize() returns (emitted: Option<string>)
      modifies this`showCustomInput
      ensures emitted == CustomSizeEmission(customSize)
      ensures showCustomInput == if emitted.Some? then false else old(showCustomInput)
    {
      emitted := None;
      if customSize != "" {
        var size := ParseInt(customSize);
        if size.Some? && 8 <= size.value <= 72 {
          emitted := Some(NatToDecimal(size.value) + "px");
          showCustomInput := false;
        }
      }
    }

    /** Enter applies the field; every other key leaves everything as it is. */
    method HandleKeyDown(key: string) returns (emitted: Option<string>)
      modifies this`showCustomInput
      ensures key == "Enter" ==> emitted == CustomSizeEmission(customSize)
      ensures key == "Enter" ==> showCustomInput == if emitted.Some? then false else old(showCustomInput)
      ensures key != "Enter" ==> emitted.None? && showCustomInput == old(showCustomInput)
    {
      emitted := None;
      if key == "Enter" {
        emitted := ApplyCustomSize();
      }
    }
  }
}
