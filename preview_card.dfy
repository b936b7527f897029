/**
 * The styling decisions of components/PreviewCard.tsx: the border colour is
 * read as a red, green and blue triple, its relative luminance decides
 * whether the background is dark, that decision picks the text colours, and
 * the layout picks the alignment. The title is the model with the make
 * dropped, or the make.
 *
 * A channel that `parseInt` cannot read is NaN in the source; it is `None`
 * here. NaN spreads through the luminance, and `NaN < 0.5` is false, so such
 * a colour counts as light. `Math.pow(x, 2.4)` is the parameter `pow24`.
 */
module PreviewCard {
  import opened Wrappers
  import opened JsString
  import opened JsNumber
  import opened Types
  import CanvasRenderer
  import Controls

  /** `h.split('').map(c => c + c).join('')`: every character written twice. */
  function Doubled(h: string): (s: string)
    ensures |s| == 2 * |h|
  {
    if h == [] then [] else [h[0], h[0]] + Doubled(h[1..])
  }

  /** Code unit `i` of the code sits at positions `2i` and `2i + 1` of its doubling. */
  lemma {:induction false} DoubledAt(h: string, i: nat)
    requires i < |h|
    ensures Doubled(h)[2 * i] == h[i] && Doubled(h)[2 * i + 1] == h[i]
    decreases i
  {
    if i > 0 {
      DoubledAt(h[1..], i - 1);
      assert Doubled(h) == [h[0], h[0]] + Doubled(h[1..]);
    }
  }

  /** The text `parseHex` slices: the first `#` removed, trimmed, and a
      three-unit code doubled. */
  function HexText(hex: string): string {
    var h := Trim(RemoveFirst(hex, '#'));
    if |h| == 3 then Doubled(h) else h
  }

  /** A colour as three channels; `None` where `parseInt` gives NaN. */
  datatype Rgb = Rgb(r: Option<int>, g: Option<int>, b: Option<int>)

  /** `parseHex`: each channel is `parseInt` of a two-unit slice in base 16. */
  function ParseHex(hex: string): Rgb {
    Channels(HexText(hex))
  }

  /** The three two-unit slices of the expanded text, each read in base 16. */
  function Channels(s: string): Rgb {
    Rgb(ParseInt(Slice(s, 0, 2), 16), ParseInt(Slice(s, 2, 4), 16), ParseInt(Slice(s, 4, 6), 16))
  }

  /** Neither white space nor `#`: a character `parseHex` keeps where it stands. */
  predicate Plain(s: string) {
    forall i :: 0 <= i < |s| ==> !IsSpace(s[i]) && s[i] != '#'
  }

  /** Without white space or a further `#`, the text sliced is the code after the `#`. */
  lemma HexTextOfCode(h: string)
    requires Plain(h)
    ensures Trim(RemoveFirst("#" + h, '#')) == h
    ensures Trim(RemoveFirst(h, '#')) == h
  {
    assert '#' !in h by {
      assert forall i :: 0 <= i < |h| ==> h[i] != '#';
    }
    RemoveLeadingHash(h);
    assert NoSpace(h) by {
      assert forall i :: 0 <= i < |h| ==> !IsSpace(h[i]);
    }
    TrimNoSpace(h);
  }

  /** `replace('#', '')` drops a leading `#` and nothing else. */
  lemma RemoveLeadingHash(h: string)
    requires '#' !in h
    ensures RemoveFirst("#" + h, '#') == h && RemoveFirst(h, '#') == h
  {
    assert IndexOf("#" + h, '#') == 0;
    assert ("#" + h)[1..] == h;
  }

  /** The `#` is optional: a code parses the same with or without it. */
  lemma HashOptional(h: string)
    requires Plain(h)
    ensures ParseHex("#" + h) == ParseHex(h)
  {
    HexTextOfCode(h);
  }

  lemma DoubledThree(a: char, b: char, c: char)
    ensures Doubled([a, b, c]) == [a, a, b, b, c, c]
  {
    assert Doubled([c]) == [c, c] by {
      assert [c][1..] == [];
    }
    assert Doubled([b, c]) == [b, b] + Doubled([c]) by {
      assert [b, c][1..] == [c];
    }
    assert Doubled([a, b, c]) == [a, a] + Doubled([b, c]) by {
      assert [a, b, c][1..] == [b, c];
    }
  }

  /** `#abc` and `#aabbcc` give the same triple. */
  lemma ShorthandMatchesLong(a: char, b: char, c: char)
    requires Plain([a, b, c])
    ensures ParseHex(['#', a, b, c]) == ParseHex(['#', a, a, b, b, c, c])
  {
    ShorthandText(a, b, c);
    SameText(['#', a, b, c], ['#', a, a, b, b, c, c]);
  }

  /** The channels depend only on the text sliced. */
  lemma SameText(x: string, y: string)
    requires HexText(x) == HexText(y)
    ensures ParseHex(x) == ParseHex(y)
  {
  }

  lemma ShorthandText(a: char, b: char, c: char)
    requires Plain([a, b, c])
    ensures HexText(['#', a, b, c]) == HexText(['#', a, a, b, b, c, c]) == [a, a, b, b, c, c]
  {
    var short := [a, b, c];
    var long := [a, a, b, b, c, c];
    assert ['#', a, b, c] == "#" + short;
    assert ['#', a, a, b, b, c, c] == "#" + long;
    assert HexText("#" + short) == long by {
      HexTextOfCode(short);
      DoubledThree(a, b, c);
    }
    assert HexText("#" + long) == long by {
      PlainDoubled(a, b, c);
      HexTextOfCode(long);
    }
  }

  lemma PlainDoubled(a: char, b: char, c: char)
    requires Plain([a, b, c])
    ensures Plain([a, a, b, b, c, c])
  {
    assert !IsSpace(a) && a != '#' by { assert [a, b, c][0] == a; }
    assert !IsSpace(b) && b != '#' by { assert [a, b, c][1] == b; }
    assert !IsSpace(c) && c != '#' by { assert [a, b, c][2] == c; }
  }

  /** The byte two hex digits denote. */
  function HexByte(hi: char, lo: char): (n: int)
    requires IsDigitIn(hi, 16) && IsDigitIn(lo, 16)
    ensures 0 <= n <= 255
  {
    16 * DigitValue(hi) + DigitValue(lo)
  }

  /** Two hex digits read as that byte. */
  lemma ParseIntTwoHex(hi: char, lo: char)
    requires IsDigitIn(hi, 16) && IsDigitIn(lo, 16)
    ensures ParseInt([hi, lo], 16) == Some(HexByte(hi, lo))
  {
    var s := [hi, lo];
    assert !IsSpace(hi);
    assert TrimStart(s) == s;
    assert DigitRun(s, 16) == s by {
      DigitRunStops(s, [], 16);
      assert s + [] == s;
    }
    assert [hi, lo][..1] == [hi];
    assert DigitsValue([hi], 16) == DigitValue(hi) by {
      assert [hi][..0] == [];
    }
  }

  /** A `#` and six hex digits give each channel the byte of its two digits, in 0..255. */
  lemma SixDigitChannels(s: string)
    requires |s| == 6 && AllDigits(s, 16)
    ensures ParseHex("#" + s) == Rgb(Some(HexByte(s[0], s[1])), Some(HexByte(s[2], s[3])), Some(HexByte(s[4], s[5])))
  {
    SixDigitText(s);
    DigitPair(s, 0);
    DigitPair(s, 2);
    DigitPair(s, 4);
    SixDigitParse(s);
  }

  lemma DigitPair(s: string, i: nat)
    requires i + 2 <= |s| && AllDigits(s, 16)
    ensures IsDigitIn(s[i], 16) && IsDigitIn(s[i + 1], 16)
  {
  }

  lemma SixDigitParse(s: string)
    requires |s| == 6
    requires IsDigitIn(s[0], 16) && IsDigitIn(s[1], 16) && IsDigitIn(s[2], 16)
    requires IsDigitIn(s[3], 16) && IsDigitIn(s[4], 16) && IsDigitIn(s[5], 16)
    ensures Channels(s) == Rgb(Some(HexByte(s[0], s[1])), Some(HexByte(s[2], s[3])), Some(HexByte(s[4], s[5])))
  {
    RedPair(s);
    GreenPair(s);
    BluePair(s);
  }

  lemma RedPair(s: string)
    requires |s| == 6 && IsDigitIn(s[0], 16) && IsDigitIn(s[1], 16)
    ensures Channels(s).r == Some(HexByte(s[0], s[1]))
  {
    HexPair(s, 0);
  }
  lemma GreenPair(s: string)
    requires |s| == 6 && IsDigitIn(s[2], 16) && IsDigitIn(s[3], 16)
    ensures Channels(s).g == Some(HexByte(s[2], s[3]))
  {
    HexPair(s, 2);
  }
  lemma BluePair(s: string)
    requires |s| == 6 && IsDigitIn(s[4], 16) && IsDigitIn(s[5], 16)
    ensures Channels(s).b == Some(HexByte(s[4], s[5]))
  {
    HexPair(s, 4);
  }

  lemma SixDigitText(s: string)
    requires |s| == 6 && AllDigits(s, 16)
    ensures HexText("#" + s) == s
  {
    assert Plain(s) by {
      forall i | 0 <= i < |s| ensures !IsSpace(s[i]) && s[i] != '#' {
        assert IsDigitIn(s[i], 16);
      }
    }
    HexTextOfCode(s);
  }

  /** The slice at `i` of a code of hex digits is the byte of its two digits. */
  lemma HexPair(s: string, i: nat)
    requires i + 2 <= |s| && IsDigitIn(s[i], 16) && IsDigitIn(s[i + 1], 16)
    ensures ParseInt(Slice(s, i, i + 2), 16) == Some(HexByte(s[i], s[i + 1]))
  {
    assert Slice(s, i, i + 2) == [s[i], s[i + 1]];
    ParseIntTwoHex(s[i], s[i + 1]);
  }

  /** `srgbToLin`: the sRGB transfer function of IEC 61966-2-1, with the power
      branch `((v + 0.055) / 1.055) ^ 2.4` given as `pow24`. */
  function Linear(c: Option<int>, pow24: real -> real): Option<real> {
    match c
    case None => None
    case Some(n) =>
      var v := n as real / 255.0;
      Some(if v <= 0.04045 then v / 12.92 else pow24((v + 0.055) / 1.055))
  }

  /** The relative luminance with the weights of Rec. ITU-R BT.709; `None`
      (NaN) when a channel is. */
  function Luminance(rgb: Rgb, pow24: real -> real): Option<real> {
    var r := Linear(rgb.r, pow24);
    var g := Linear(rgb.g, pow24);
    var b := Linear(rgb.b, pow24);
    if r.Some? && g.Some? && b.Some? then Some(0.2126 * r.value + 0.7152 * g.value + 0.0722 * b.value)
    else None
  }

  /** `isDarkBg`: the luminance is a number below one half. */
  predicate IsDarkBg(color: string, pow24: real -> real) {
    var l := Luminance(ParseHex(color), pow24);
    l.Some? && l.value < 0.5
  }

  /** A colour with a channel `parseInt` cannot read counts as light. */
  lemma UnreadableIsLight(color: string, pow24: real -> real)
    requires ParseHex(color).r.None? || ParseHex(color).g.None? || ParseHex(color).b.None?
    ensures !IsDarkBg(color, pow24)
  {
    NoLuminance(ParseHex(color), pow24);
  }

  /** A missing channel makes the luminance NaN. */
  lemma NoLuminance(rgb: Rgb, pow24: real -> real)
    requires rgb.r.None? || rgb.g.None? || rgb.b.None?
    ensures Luminance(rgb, pow24).None?
  {
  }

  /** A colour name is not a code: `red` doubles to `rreedd`, whose first slice is no number. */
  lemma NamedColourIsLight(pow24: real -> real)
    ensures !IsDarkBg("red", pow24)
  {
    RedUnreadable();
    UnreadableIsLight("red", pow24);
  }

  lemma RedUnreadable()
    ensures ParseHex("red").r.None?
  {
    assert HexText("red") == "rreedd" by {
      HexTextOfCode("red");
      DoubledThree('r', 'e', 'd');
    }
    FirstUnitUnreadable("rreedd");
  }

  /** A text whose first unit is no sign, white space or hex digit has no red channel. */
  lemma FirstUnitUnreadable(s: string)
    requires |s| >= 2 && !IsDigitIn(s[0], 16) && !IsSpace(s[0]) && s[0] != '-' && s[0] != '+'
    ensures Channels(s).r.None?
  {
    var t := Slice(s, 0, 2);
    assert t[0] == s[0];
    assert TrimStart(t) == t;
    assert DigitRun(t, 16) == [];
  }

  /** Channels of at most 10 stay on the linear branch, so the colour is dark
      whatever the power branch computes. */
  lemma DeepShadowIsDark(rgb: Rgb, pow24: real -> real)
    requires rgb.r.Some? && rgb.g.Some? && rgb.b.Some?
    requires rgb.r.value <= 10 && rgb.g.value <= 10 && rgb.b.value <= 10
    ensures Luminance(rgb, pow24).Some? && Luminance(rgb, pow24).value < 0.5
  {
    ShadowChannel(rgb.r.value, pow24);
    ShadowChannel(rgb.g.value, pow24);
    ShadowChannel(rgb.b.value, pow24);
  }

  lemma ShadowChannel(n: int, pow24: real -> real)
    requires n <= 10
    ensures Linear(Some(n), pow24).Some? && Linear(Some(n), pow24).value < 0.01
  {
    var v := n as real / 255.0;
    assert v <= 10.0 / 255.0;
  }

  /** Six `0` digits, `#000000`, make a dark background. */
  lemma BlackIsDark(s: string, pow24: real -> real)
    requires |s| == 6 && forall k :: 0 <= k < |s| ==> s[k] == '0'
    ensures IsDarkBg("#" + s, pow24)
  {
    assert AllDigits(s, 16) by { forall k | 0 <= k < |s| ensures IsDigitIn(s[k], 16) { assert s[k] == '0'; } }
    SixDigitChannels(s);
    ZeroByte(s[0], s[1]);
    ZeroByte(s[2], s[3]);
    ZeroByte(s[4], s[5]);
    DeepShadowIsDark(ParseHex("#" + s), pow24);
  }

  lemma ZeroByte(hi: char, lo: char)
    requires hi == '0' && lo == '0'
    ensures HexByte(hi, lo) == 0
  {
  }

  /** Six `f` digits in either case, `#ffffff` or `#FFFFFF`, make a light
      background, given only that the power branch maps 1 to 1. */
  lemma WhiteIsLight(s: string, pow24: real -> real)
    requires |s| == 6 && forall k :: 0 <= k < |s| ==> s[k] == 'f' || s[k] == 'F'
    requires pow24(1.0) == 1.0
    ensures !IsDarkBg("#" + s, pow24)
  {
    assert AllDigits(s, 16) by { forall k | 0 <= k < |s| ensures IsDigitIn(s[k], 16) { assert s[k] == 'f' || s[k] == 'F'; } }
    SixDigitChannels(s);
    FullByte(s[0], s[1]);
    FullByte(s[2], s[3]);
    FullByte(s[4], s[5]);
    FullChannel(pow24);
    FullLuminance(pow24);
  }

  lemma FullByte(hi: char, lo: char)
    requires (hi == 'f' || hi == 'F') && (lo == 'f' || lo == 'F')
    ensures HexByte(hi, lo) == 255
  {
  }

  lemma FullLuminance(pow24: real -> real)
    requires Linear(Some(255), pow24) == Some(1.0)
    ensures Luminance(Rgb(Some(255), Some(255), Some(255)), pow24) == Some(1.0)
  {
  }

  /** A full channel takes the power branch at exactly 1. */
  lemma FullChannel(pow24: real -> real)
    requires pow24(1.0) == 1.0
    ensures Linear(Some(255), pow24) == Some(1.0)
  {
    assert 255 as real / 255.0 == 1.0;
    assert (1.0 + 0.055) / 1.055 == 1.0;
  }

  /** The three text colours: name, lens and settings, date. */
  datatype Palette = Palette(base: string, muted: string, tertiary: string)

  /** Light text on a dark background, dark grey text on a light one. */
  function TextPalette(dark: bool): Palette {
    if dark then Palette("#ffffff", "#d1d5db", "#d1d5db") else Palette("#111827", "#6b7280", "#9ca3af")
  }

  /** The palette chosen for a border colour. */
  function PaletteFor(color: string, pow24: real -> real): Palette {
    TextPalette(IsDarkBg(color, pow24))
  }

  /** On the black and white borders the name is never drawn in the border's
      own colour: white on black, near-black on white. */
  lemma PaletteContrast(black: string, white: string, pow24: real -> real)
    requires |black| == 6 && forall k :: 0 <= k < |black| ==> black[k] == '0'
    requires |white| == 6 && forall k :: 0 <= k < |white| ==> white[k] == 'f' || white[k] == 'F'
    requires pow24(1.0) == 1.0
    ensures PaletteFor("#" + black, pow24).base == "#ffffff"
    ensures PaletteFor("#" + white, pow24).base == "#111827"
    ensures PaletteFor("#" + white, pow24).base != "#ffffff"
  {
    BlackIsDark(black, pow24);
    WhiteIsLight(white, pow24);
  }

  /** The heading: `displayModel || exif.make`. */
  function Title(e: ExifData): string {
    var shown := CanvasRenderer.DisplayModel(e.make, e.model);
    if shown != "" then shown else e.make
  }

  /** The title falls back to the make exactly when the cleaned model is empty,
      which happens when the model is only the make; a model `make name` shows
      `name`. */
  lemma TitleFallsBack(e: ExifData)
    ensures CanvasRenderer.DisplayModel(e.make, e.model) == "" ==> Title(e) == e.make
    ensures Lower(e.model) == Lower(e.make) ==> Title(e) == e.make
    ensures Title(e) == "" ==> e.make == ""
  {
    if Lower(e.model) == Lower(e.make) {
      CanvasRenderer.DisplayModelOnlyMake(e.make, e.model);
    }
  }

  /** A model that is the make, a space and a non-empty name is titled by the name. */
  lemma TitleOfMakeAndName(e: ExifData, name: string)
    requires name != "" && Trimmed(name) && e.model == e.make + " " + name
    ensures Title(e) == name
  {
    CanvasRenderer.DisplayModelStripsMake(e.make, name);
  }

  /** Every preset colour of the picker is `#` and six hex digits. */
  lemma PresetShape(i: nat)
    requires i < |Controls.PresetColors|
    ensures |Controls.PresetColors[i]| == 7 && Controls.PresetColors[i][0] == '#'
    ensures AllDigits(Controls.PresetColors[i][1..], 16)
  {
  }

  /** The card reads all three channels of every preset colour, each a byte. */
  lemma PresetsReadable(i: nat)
    requires i < |Controls.PresetColors|
    ensures ParseHex(Controls.PresetColors[i]).r.Some? && ParseHex(Controls.PresetColors[i]).g.Some?
    ensures ParseHex(Controls.PresetColors[i]).b.Some?
    ensures 0 <= ParseHex(Controls.PresetColors[i]).r.value <= 255
    ensures 0 <= ParseHex(Controls.PresetColors[i]).g.value <= 255
    ensures 0 <= ParseHex(Controls.PresetColors[i]).b.value <= 255
  {
    var p := Controls.PresetColors[i];
    PresetShape(i);
    assert p == "#" + p[1..];
    SixDigitChannels(p[1..]);
  }

  /** The layout prop, `left` when absent. */
  function PreviewLayout(l: Option<Layout>): Layout {
    if l.Some? then l.value else Left
  }

  /** The flex alignment of the rows. */
  function JustifyContent(l: Layout): string {
    if l == Center then "center" else if l == Right then "flex-end" else "flex-start"
  }

  /** The text alignment of the column. */
  function TextAlign(l: Layout): string {
    if l == Center then "center" else if l == Right then "right" else "left"
  }

  /** Each layout gets its own alignment: the text aligns as the layout is
      named, and the rows start, centre or end to match. */
  lemma AlignmentMatchesLayout(l: Layout)
    ensures TextAlign(l) == LayoutName(l)
    ensures JustifyContent(l) == "center" <==> l == Center
    ensures JustifyContent(l) == "flex-end" <==> l == Right
    ensures JustifyContent(l) == "flex-start" <==> l == Left
    ensures JustifyContent(PreviewLayout(None)) == "flex-start" && TextAlign(PreviewLayout(None)) == "left"
  {
  }
}
