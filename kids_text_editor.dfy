/**
 * The editor's text and its rainbow-mode colours: one colour per character,
 * kept in step with the text as it is edited, shown and printed with the
 * text colour as fallback; plus the print body and the font-size
 * normalisation.
 */
module KidsTextEditor {

  import opened Text

  /** The eight colours rainbow mode draws from. */
  const Palette: seq<string> := [
    "#FF5733", "#33FF57", "#3357FF", "#FF33F5",
    "#F5B700", "#8B33FF", "#FF9933", "#33FFF5"
  ]

  /** The colour a new letter may receive: before mount the first palette entry, afterwards the text colour or any palette entry. */
  predicate RainbowChoice(c: string, textColor: string, isClient: bool) {
    if isClient then c == textColor || c in Palette else c == Palette[0]
  }

  function MaxLen(a: nat, b: nat): nat { if a >= b then a else b }

  /** `letterColors[i] || textColor`: an entry that is missing or empty falls back to the text colour. */
  function LetterColor(letterColors: seq<string>, textColor: string, i: nat): string {
    if i < |letterColors| && letterColors[i] != "" then letterColors[i] else textColor
  }

  /** Extending the list keeps the colour of every letter it already covered. */
  lemma LetterColorExtend(letterColors: seq<string>, more: seq<string>, textColor: string, i: nat)
    requires i < |letterColors|
    ensures LetterColor(letterColors + more, textColor, i) == LetterColor(letterColors, textColor, i)
  {
  }

  /** Truncating the list keeps the colour of every letter before the cut. */
  lemma LetterColorTruncate(letterColors: seq<string>, n: nat, textColor: string, i: nat)
    requires n <= |letterColors| && i < n
    ensures LetterColor(letterColors[..n], textColor, i) == LetterColor(letterColors, textColor, i)
  {
  }

  /** One character of the rainbow print body. */
  function CharMarkup(ch: char, color: string): string {
    if ch == '\n' then "<br>"
    else "<span style=\"color: " + color + "\">" + (if ch == ' ' then "&nbsp;" else [ch]) + "</span>"
  }

  /** The rainbow print body: the markup of every character, in order, each in its letter colour. */
  function RainbowBody(text: string, letterColors: seq<string>, textColor: string): string
    decreases |text|
  {
    if text == [] then ""
    else
      var n := |text| - 1;
      RainbowBody(text[..n], letterColors, textColor) + CharMarkup(text[n], LetterColor(letterColors, textColor, n))
  }

  /** `text.replace(/\n/g, "<br>")` */
  function PlainBody(text: string): string
    decreases |text|
  {
    if text == [] then ""
    else (if text[0] == '\n' then "<br>" else [text[0]]) + PlainBody(text[1..])
  }

  function PrintBody(text: string, rainbowMode: bool, letterColors: seq<string>, textColor: string): string {
    if rainbowMode then RainbowBody(text, letterColors, textColor) else PlainBody(text)
  }

  /** The rainbow body of a prefix of the text is a prefix of the body: typing only appends. */
  lemma {:induction false} RainbowBodyPrefix(text: string, k: nat, letterColors: seq<string>, textColor: string)
    requires k <= |text|
    ensures StartsWith(RainbowBody(text, letterColors, textColor), RainbowBody(text[..k], letterColors, textColor))
    decreases |text|
  {
    if k == |text| {
      assert text[..k] == text;
    } else {
      var n := |text| - 1;
      assert text[..n][..k] == text[..k];
      RainbowBodyPrefix(text[..n], k, letterColors, textColor);
      RainbowBodyStep(text, letterColors, textColor);
      StartsWithTransitive(RainbowBody(text, letterColors, textColor),
                           RainbowBody(text[..n], letterColors, textColor),
                           RainbowBody(text[..k], letterColors, textColor));
    }
  }

  /** Typing one more character only appends its own markup, in its own letter colour, to the rainbow body. */
  lemma RainbowBodyStep(text: string, letterColors: seq<string>, textColor: string)
    requires text != []
    ensures var n := |text| - 1;
      RainbowBody(text, letterColors, textColor)
        == RainbowBody(text[..n], letterColors, textColor) + CharMarkup(text[n], LetterColor(letterColors, textColor, n))
    ensures StartsWith(RainbowBody(text, letterColors, textColor), RainbowBody(text[..|text| - 1], letterColors, textColor))
  {
    var n := |text| - 1;
    var front := RainbowBody(text[..n], letterColors, textColor);
    var last := CharMarkup(text[n], LetterColor(letterColors, textColor, n));
    StartsWithAppend(front, last, front);
  }

  lemma StartsWithTransitive(a: string, b: string, c: string)
    requires StartsWith(a, b) && StartsWith(b, c)
    ensures StartsWith(a, c)
  {
    assert a[..|c|] == b[..|c|];
  }

  lemma StartsWithAppend(a: string, b: string, p: string)
    requires StartsWith(a, p)
    ensures StartsWith(a + b, p)
  {
    assert (a + b)[..|p|] == a[..|p|];
  }

  /** The rainbow body depends on the colour list only through the letter colours of the text's characters. */
  lemma {:induction false} RainbowBodyCongruent(text: string, lc1: seq<string>, lc2: seq<string>, textColor: string)
    requires forall i :: 0 <= i < |text| ==> LetterColor(lc1, textColor, i) == LetterColor(lc2, textColor, i)
    ensures RainbowBody(text, lc1, textColor) == RainbowBody(text, lc2, textColor)
    decreases |text|
  {
    if text != [] {
      RainbowBodyCongruent(text[..|text| - 1], lc1, lc2, textColor);
    }
  }

  /** Colours past the end of the text never reach the print body. */
  lemma RainbowBodyIgnoresExtraColors(text: string, letterColors: seq<string>, textColor: string)
    requires |text| <= |letterColors|
    ensures RainbowBody(text, letterColors[..|text|], textColor) == RainbowBody(text, letterColors, textColor)
  {
    forall i | 0 <= i < |text|
      ensures LetterColor(letterColors[..|text|], textColor, i) == LetterColor(letterColors, textColor, i)
    {
      LetterColorTruncate(letterColors, |text|, textColor, i);
    }
    RainbowBodyCongruent(text, letterColors[..|text|], letterColors, textColor);
  }

  /** A newline-free text is printed as it is in plain mode, and no newline survives plain mode. */
  lemma {:induction false} PlainBodyNewlines(text: string)
    ensures '\n' !in PlainBody(text)
    ensures '\n' !in text ==> PlainBody(text) == text
    decreases |text|
  {
    if text != [] {
      PlainBodyNewlines(text[1..]);
      assert '\n' !in text ==> '\n' !in text[1..];
      assert text == [text[0]] + text[1..];
    }
  }

  /** Plain mode treats the text piecewise: the body of a concatenation is the concatenation of the bodies. */
  lemma {:induction false} PlainBodyConcat(a: string, b: string)
    ensures PlainBody(a + b) == PlainBody(a) + PlainBody(b)
    decreases |a|
  {
    if a != [] {
      assert (a + b)[1..] == a[1..] + b;
      PlainBodyConcat(a[1..], b);
    } else {
      assert a + b == b;
    }
  }

  /**
   * Whichever mode is on, typing more text only appends to the printed
   * page: the page for the old text is a prefix of the page for the longer one.
   */
  lemma PrintBodyAppend(text: string, more: string, rainbowMode: bool, letterColors: seq<string>, textColor: string)
    ensures StartsWith(PrintBody(text + more, rainbowMode, letterColors, textColor),
                       PrintBody(text, rainbowMode, letterColors, textColor))
  {
    if rainbowMode {
      assert (text + more)[..|text|] == text;
      RainbowBodyPrefix(text + more, |text|, letterColors, textColor);
    } else {
      PlainBodyConcat(text, more);
      StartsWithAppend(PlainBody(text), PlainBody(more), PlainBody(text));
    }
  }

  /** `fontSize.endsWith("px") ? fontSize : fontSize + "px"` */
  function NormalizedFontSize(fontSize: string): (r: string)
    ensures EndsWith(r, "px")
    ensures EndsWith(fontSize, "px") ==> r == fontSize
    ensures !EndsWith(fontSize, "px") ==> r == fontSize + "px"
  {
    if EndsWith(fontSize, "px") then fontSize else fontSize + "px"
  }

  lemma NormalizedFontSizeIdempotent(fontSize: string)
    ensures NormalizedFontSize(NormalizedFontSize(fontSize)) == NormalizedFontSize(fontSize)
  {
  }

  class Editor {
    var text: string
    var fontSize: string
    var textColor: string
    var rainbowMode: bool
    var letterColors: seq<string>
    var isClient: bool

    /** The bookkeeping never holds more colours than characters. */
    ghost predicate Valid()
      reads this
    {
      |letterColors| <= |text|
    }

    /** The state before mount and before anything is loaded from storage. */
    constructor ()
      ensures Valid()
      ensures text == "" && fontSize == "24px" && textColor == "#FF5733"
      ensures !rainbowMode && letterColors == [] && !isClient
    {
      text, fontSize, textColor := "", "24px", "#FF5733";
      rainbowMode, letterColors, isClient := false, [], false;
    }

    method Mount()
      modifies this`isClient
      ensures isClient
    {
      isClient := true;
    }

    /** `getRandomColor`: the random draw is a nondeterministic choice. */
    method RandomColor() returns (c: string)
      ensures RainbowChoice(c, textColor, isClient)
    {
      if !isClient {
        c := Palette[0];
      } else {
        var pick :| 0 <= pick <= |Palette|;
        c := if pick == |Palette| then textColor else Palette[pick];
      }
    }

    method HandleTextChange(newText: string)
      modifies this`text, this`letterColors
      ensures text == newText
      ensures old(rainbowMode) && |newText| > |old(text)| ==>
        && |letterColors| == MaxLen(|old(letterColors)|, |newText|)
        && letterColors[..|old(letterColors)|] == old(letterColors)
        && forall i :: |old(letterColors)| <= i < |letterColors| ==> RainbowChoice(letterColors[i], textColor, isClient)
      ensures !(old(rainbowMode) && |newText| > |old(text)|) ==>
        letterColors == if |newText| < |old(letterColors)| then old(letterColors)[..|newText|] else old(letterColors)
      ensures old(Valid()) ==> Valid()
    {
      var oldText := text;
      text := newText;
      if rainbowMode && |newText| > |oldText| {
        var newColors := letterColors;
        var i := |letterColors|;
        while i < |newText|
          invariant text == newText && letterColors == old(letterColors)
          invariant |letterColors| <= i == |newColors|
          invariant i <= MaxLen(|letterColors|, |newText|)
          invariant newColors[..|letterColors|] == letterColors
          invariant forall k :: |letterColors| <= k < i ==> RainbowChoice(newColors[k], textColor, isClient)
        {
          var c := RandomColor();
          newColors := newColors + [c];
          i := i + 1;
        }
        letterColors := newColors;
      } else if |newText| < |letterColors| {
        letterColors := letterColors[..|newText|];
      }
    }
  }
}
