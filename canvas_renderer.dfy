/**
 * The values utils/canvasRenderer.ts computes for the exported frame: the
 * geometry (every length a fixed multiple of the photo's longer side), the
 * logo's aspect ratio read from the brand mark's `viewBox`, the logo box,
 * and the two text lines. Lengths are exact reals.
 */
module CanvasRenderer {
  import opened Wrappers
  import opened JsString
  import opened JsNumber
  import opened Types

  // ---------------------------------------------------------------------------
  // Geometry
  // ---------------------------------------------------------------------------

  function Max(a: real, b: real): real {
    if a >= b then a else b
  }

  /** Every length of the frame for a photo of `width` × `height` pixels. */
  datatype Frame = Frame(
    border: real,         // the margin left, right and above the photo
    bottomPadding: real,  // the band below the photo that holds the text
    canvasWidth: real,
    canvasHeight: real,
    imageX: real,
    imageY: real,
    baseFont: real,
    smallFont: real,
    textY: real,          // the top of the first text line
    leftX: real,          // the left column's anchor
    rightX: real,         // the right column's anchor (right-aligned text)
    secondLineY: real)    // the top of the lens and date lines

  function FrameOf(width: nat, height: nat): Frame {
    var w, h := width as real, height as real;
    var m := Max(w, h);
    var border := m * 0.04;
    var bottomPadding := border * 3.5;
    var canvasWidth := w + border * 2.0;
    var canvasHeight := h + border + bottomPadding;
    var baseFont := m * 0.018;
    var textY := border + h + bottomPadding * 0.15;
    Frame(border, bottomPadding, canvasWidth, canvasHeight, border, border,
          baseFont, baseFont * 0.85, textY, border, canvasWidth - border, textY + baseFont * 1.4)
  }

  /** The frame's lengths are the fixed multiples of the longer side `M`:
      a 4% border, a bottom band 3.5 times as deep, and fonts of 1.8% and
      0.85 of that. */
  lemma FrameProportions(width: nat, height: nat)
    ensures var f := FrameOf(width, height);
      var m := Max(width as real, height as real);
      && f.border == 0.04 * m && f.bottomPadding == 0.14 * m
      && f.canvasWidth == width as real + 0.08 * m
      && f.canvasHeight == height as real + 0.18 * m
      && f.baseFont == 0.018 * m && f.smallFont == 0.0153 * m
  {
  }

  /** The photo sits at `(border, border)` at its own size, entirely inside
      the canvas: `border` of margin left, right and above, and the bottom
      band below. */
  lemma PhotoInsideCanvas(width: nat, height: nat)
    ensures var f := FrameOf(width, height);
      && f.imageX == f.border && f.imageY == f.border && f.border >= 0.0
      && f.imageX + width as real + f.border == f.canvasWidth
      && f.imageY + height as real + f.bottomPadding == f.canvasHeight
  {
  }

  /** The two columns: the left anchor at `border`, the right one at
      `W + border`, exactly the photo's width apart. */
  lemma ColumnsSpanPhoto(width: nat, height: nat)
    ensures var f := FrameOf(width, height);
      && f.leftX == f.border
      && f.rightX == width as real + f.border
      && f.rightX - f.leftX == width as real
  {
  }

  /** For any photo that is not empty, both text lines start strictly below
      the photo, and the second line, with its font, ends above the canvas
      bottom. */
  lemma TextInBottomBand(width: nat, height: nat)
    requires width > 0 || height > 0
    ensures var f := FrameOf(width, height);
      && f.imageY + height as real < f.textY
      && f.textY < f.secondLineY
      && f.secondLineY == f.textY + 1.4 * f.baseFont
      && f.secondLineY + f.smallFont < f.canvasHeight
  {
    var m := Max(width as real, height as real);
    assert m > 0.0;
  }

  // ---------------------------------------------------------------------------
  // Logo
  // ---------------------------------------------------------------------------

  /** `logoType || exif.make`: the brand whose mark is drawn. */
  function Brand(logoType: string, e: ExifData): string {
    if logoType != "" then logoType else e.make
  }

  const ViewBoxOpen: string := "viewBox=\""

  /** `\s*\d+` (or `\s+\d+` when `needSpace`) at the start of `t`: the digits
      and what follows them. White space and digits are disjoint, so the
      greedy reading is the only one. */
  function SpacedDigits(t: string, needSpace: bool): (r: Option<(string, string)>)
    ensures r.Some? ==> r.value.0 != [] && AllDigits(r.value.0, 10) && |r.value.1| < |t|
  {
    var v := TrimStart(t);
    if needSpace && |v| == |t| then None
    else
      var d := DigitRun(v, 10);
      if d == [] then None else Some((d, v[|d|..]))
  }

  /** `/viewBox="\s*\d+\s+\d+\s+(\d+)\s+(\d+)"/` matched at the start of `t`:
      the two captured digit strings. */
  function ViewBoxAt(t: string): Option<(string, string)> {
    if StartsWith(t, ViewBoxOpen) then AfterOpen(t[|ViewBoxOpen|..]) else None
  }

  /** `\s*\d+` (the x origin), then the rest of the pattern. */
  function AfterOpen(u: string): Option<(string, string)> {
    match SpacedDigits(u, false)
    case None => None
    case Some(x) => AfterX(x.1)
  }

  /** `\s+\d+` (the y origin), then the rest of the pattern. */
  function AfterX(u: string): Option<(string, string)> {
    match SpacedDigits(u, true)
    case None => None
    case Some(y) => AfterY(y.1)
  }

  /** `\s+(\d+)` (the width), then the rest of the pattern. */
  function AfterY(u: string): Option<(string, string)> {
    match SpacedDigits(u, true)
    case None => None
    case Some(w) => AfterWidth(w.0, w.1)
  }

  /** `\s+(\d+)"` (the height and the closing quote). */
  function AfterWidth(w: string, u: string): Option<(string, string)> {
    match SpacedDigits(u, true)
    case None => None
    case Some(h) => if h.1 != [] && h.1[0] == '"' then Some((w, h.0)) else None
  }

  /** `markup.match(…)`: the leftmost match. */
  function FindViewBox(markup: string): Option<(string, string)>
    decreases |markup|
  {
    if markup == [] then None
    else if ViewBoxAt(markup).Some? then ViewBoxAt(markup)
    else FindViewBox(markup[1..])
  }

  /** `w / h` when both are positive, else 5. */
  function RatioOf(w: real, h: real): (ratio: real)
    ensures ratio > 0.0
  {
    if w > 0.0 && h > 0.0 then w / h else 5.0
  }

  /** The number `parseFloat` reads, 0 when it reads none (which the
      pattern's digits rule out). */
  function NumberOrZero(n: Option<Decimal>): real {
    if n.Some? then Value(n.value) else 0.0
  }

  /** The logo's width over height: from the `viewBox` when its width and
      height are both positive, 5 otherwise. */
  function LogoRatio(markup: string): (ratio: real)
    ensures ratio > 0.0
  {
    match FindViewBox(markup)
    case None => 5.0
    case Some(wh) => RatioOf(NumberOrZero(ParseFloat(wh.0)), NumberOrZero(ParseFloat(wh.1)))
  }

  /** A match can only start at a `v`, so a prefix without one is skipped. */
  lemma {:induction false} FindViewBoxSkips(pre: string, t: string)
    requires 'v' !in pre
    ensures FindViewBox(pre + t) == FindViewBox(t)
    decreases |pre|
  {
    if pre != [] {
      var s := pre + t;
      assert s[0] == pre[0];
      assert !StartsWith(s, ViewBoxOpen) by {
        assert ViewBoxOpen[0] == 'v';
      }
      assert s[1..] == pre[1..] + t;
      FindViewBoxSkips(pre[1..], t);
    } else {
      assert pre + t == t;
    }
  }

  /** Markup without any `v` has no `viewBox`, and the ratio is 5. */
  lemma NoViewBoxRatio(markup: string)
    requires 'v' !in markup
    ensures LogoRatio(markup) == 5.0
  {
    FindViewBoxSkips(markup, []);
    assert markup + [] == markup;
  }

  /** Decimal digits hold no white space. */
  lemma DigitsNoSpace(d: string)
    requires AllDigits(d, 10)
    ensures NoSpace(d)
  {
    forall i | 0 <= i < |d| ensures !IsSpace(d[i]) {
      assert DigitValue(d[i]) < 10;
    }
  }

  /** `parseFloat` of a decimal digit string is its value. */
  lemma ParseDigits(d: string)
    requires d != [] && AllDigits(d, 10)
    ensures NumberOrZero(ParseFloat(d)) == DigitsValue(d, 10) as real
  {
    WholeParse(d);
    WholeValue(d);
  }

  lemma WholeParse(d: string)
    requires d != [] && AllDigits(d, 10)
    ensures ParseFloat(d) == Some(Decimal(false, d, ""))
  {
    assert ReadNumeral(false, d) == Some(Decimal(false, d, "")) by {
      ReadNumeralStops(false, d, []);
      assert d + [] == d;
    }
    UnsignedRead(d, Decimal(false, d, ""));
  }

  /** A `viewBox="x y w h"` after markup without a `v` gives the logo the
      ratio `w / h` when both are positive, 5 otherwise. */
  lemma LogoRatioOfViewBox(pre: string, x: string, y: string, w: string, h: string, rest: string)
    requires 'v' !in pre
    requires x != [] && y != [] && w != [] && h != []
    requires AllDigits(x, 10) && AllDigits(y, 10) && AllDigits(w, 10) && AllDigits(h, 10)
    ensures LogoRatio(pre + ViewBoxOpen + x + " " + y + " " + w + " " + h + "\"" + rest)
      == RatioOf(DigitsValue(w, 10) as real, DigitsValue(h, 10) as real)
  {
    var t := ViewBoxOpen + x + " " + y + " " + w + " " + h + "\"" + rest;
    assert pre + ViewBoxOpen + x + " " + y + " " + w + " " + h + "\"" + rest == pre + t;
    assert FindViewBox(pre + t) == Some((w, h)) by {
      FindViewBoxSkips(pre, t);
      ViewBoxMatch(x, y, w, h, rest);
    }
    ParseDigits(w);
    ParseDigits(h);
  }

  /** The pattern matches `viewBox="x y w h"` and captures `w` and `h`. */
  lemma ViewBoxMatch(x: string, y: string, w: string, h: string, rest: string)
    requires x != [] && y != [] && w != [] && h != []
    requires AllDigits(x, 10) && AllDigits(y, 10) && AllDigits(w, 10) && AllDigits(h, 10)
    ensures ViewBoxAt(ViewBoxOpen + x + " " + y + " " + w + " " + h + "\"" + rest) == Some((w, h))
    ensures FindViewBox(ViewBoxOpen + x + " " + y + " " + w + " " + h + "\"" + rest) == Some((w, h))
  {
    var r4 := "\"" + rest;
    var r3 := " " + h + r4;
    var r2 := " " + w + r3;
    var r1 := " " + y + r2;
    var t := ViewBoxOpen + x + " " + y + " " + w + " " + h + "\"" + rest;
    assert t == ViewBoxOpen + (x + r1);
    assert AfterWidth(w, r3) == Some((w, h)) by {
      SpacedStep(h, r4);
    }
    assert AfterY(r2) == Some((w, h)) by {
      SpacedStep(w, r3);
    }
    assert AfterX(r1) == Some((w, h)) by {
      SpacedStep(y, r2);
    }
    assert AfterOpen(x + r1) == Some((w, h)) by {
      OpenStep(x, r1);
    }
    assert StartsWith(t, ViewBoxOpen) && t[|ViewBoxOpen|..] == x + r1;
  }

  /** `\s*\d+` reads the digits at the start and stops at the space after them. */
  lemma OpenStep(d: string, rest: string)
    requires d != [] && AllDigits(d, 10) && rest != [] && rest[0] == ' '
    ensures SpacedDigits(d + rest, false) == Some((d, rest))
  {
    DigitsNoSpace(d);
    assert TrimStart(d + rest) == d + rest by {
      assert (d + rest)[0] == d[0];
    }
    DigitRunStops(d, rest, 10);
    assert (d + rest)[|d|..] == rest;
  }

  /** `\s+\d+` reads one space and the digits, and stops at what follows
      when that is a space or a quote. */
  lemma SpacedStep(d: string, rest: string)
    requires d != [] && AllDigits(d, 10) && rest != [] && (rest[0] == ' ' || rest[0] == '"')
    ensures SpacedDigits(" " + d + rest, true) == Some((d, rest))
  {
    DigitsNoSpace(d);
    assert TrimStart(" " + d + rest) == d + rest by {
      assert (" " + d + rest)[1..] == d + rest;
      assert (d + rest)[0] == d[0];
    }
    DigitRunStops(d, rest, 10);
    assert (d + rest)[|d|..] == rest;
  }

  /** Where the logo is drawn. */
  datatype LogoBox = LogoBox(x: real, y: real, width: real, height: real)

  /** The logo box for a given aspect ratio: at least 12 pixels high, as
      wide as the ratio says, its top a tenth of its height above the first
      text line, at the left anchor. */
  function LogoBoxFor(f: Frame, ratio: real): (b: LogoBox)
    ensures b.height >= 12.0 && b.height >= f.baseFont
    ensures b.height == 12.0 || b.height == f.baseFont
    ensures b.width == b.height * ratio
    ensures b.x == f.leftX && b.y == f.textY - 0.1 * b.height
  {
    var height := Max(f.baseFont, 12.0);
    LogoBox(f.leftX, f.textY - height * 0.1, height * ratio, height)
  }

  /** The logo, drawn only when the brand mark's markup is not empty. */
  function Logo(markup: string, f: Frame): (r: Option<LogoBox>)
    ensures markup == "" <==> r.None?
  {
    if markup == "" then None else Some(LogoBoxFor(f, LogoRatio(markup)))
  }

  /** For a photo whose longer side is at least 91 pixels the logo ends above
      the canvas bottom; below that its 12-pixel minimum overruns the band. */
  lemma LogoInsideBand(width: nat, height: nat, markup: string)
    requires markup != ""
    requires Max(width as real, height as real) >= 91.0
    ensures var f := FrameOf(width, height);
      var logo := Logo(markup, f).value;
      f.imageY + height as real < logo.y && logo.y + logo.height < f.canvasHeight
  {
    var m := Max(width as real, height as real);
    var f := FrameOf(width, height);
    if f.baseFont >= 12.0 {
      assert m * 0.018 >= 12.0;
    }
  }

  lemma LogoOverrunsTinyPhoto()
    ensures var f := FrameOf(50, 50);
      Logo("<svg/>", f).value.y + Logo("<svg/>", f).value.height > f.canvasHeight
  {
    var f := FrameOf(50, 50);
    assert f.baseFont == 0.9 && f.textY == 53.05 && f.canvasHeight == 59.0;
  }

  // ---------------------------------------------------------------------------
  // Text
  // ---------------------------------------------------------------------------

  /** The model name without a repeated make: when the model starts with the
      make (ignoring case), the make's length is cut off and the rest trimmed. */
  function DisplayModel(make: string, model: string): string {
    if StartsWith(Lower(model), Lower(make)) then Trim(model[|make|..]) else model
  }

  /** The make is dropped exactly when it begins the model (ignoring case), and
      what is left is never longer than the rest of the model. */
  lemma DisplayModelSpec(make: string, model: string)
    ensures StartsWith(Lower(model), Lower(make)) ==>
      |make| <= |model| && DisplayModel(make, model) == Trim(model[|make|..])
      && |DisplayModel(make, model)| <= |model| - |make|
    ensures !StartsWith(Lower(model), Lower(make)) ==> DisplayModel(make, model) == model
  {
    if StartsWith(Lower(model), Lower(make)) {
      var rest := model[|make|..];
      assert |TrimEnd(TrimStart(rest))| <= |rest|;
    }
  }

  /** An empty make begins every model, so only the model's white space goes. */
  lemma DisplayModelEmptyMake(model: string)
    ensures DisplayModel("", model) == Trim(model)
  {
    assert Lower("") == "";
    assert model[0..] == model;
  }

  /** A model that is its make in another case displays as nothing. */
  lemma DisplayModelOnlyMake(make: string, model: string)
    requires Lower(model) == Lower(make)
    ensures DisplayModel(make, model) == ""
  {
    assert |model| == |make|;
    assert Lower(model)[..|make|] == Lower(make);
    assert model[|make|..] == [];
  }

  /** A model that is the make, a space and a name shows the name. */
  lemma DisplayModelStripsMake(make: string, name: string)
    requires Trimmed(name)
    ensures DisplayModel(make, make + " " + name) == name
  {
    var model := make + " " + name;
    assert StartsWith(Lower(model), Lower(make)) by {
      LowerConcat(make, " " + name);
      assert model == make + (" " + name);
    }
    assert model[|make|..] == " " + name;
    assert Trim(" " + name) == name by {
      SpaceThenTrimmed(name);
    }
  }

  /** Trimming a space before a trimmed string gives that string. */
  lemma SpaceThenTrimmed(name: string)
    requires Trimmed(name)
    ensures Trim(" " + name) == name
  {
    assert TrimStart(" " + name) == TrimStart(name);
    TrimTrimmed(name);
    if name != [] {
      assert TrimStart(name) == name;
    }
  }

  /** The first line of the left column: make, a space, the display model. */
  function LeftLine(e: ExifData): string {
    e.make + " " + DisplayModel(e.make, e.model)
  }

  /** The first line of the right column. */
  function SettingsText(e: ExifData): string {
    e.focalLength + "  " + e.fNumber + "  " + e.exposureTime + "  " + e.iso
  }

  /** The left line begins with the make and a space. */
  lemma LeftLineStartsWithMake(e: ExifData)
    ensures StartsWith(LeftLine(e), e.make + " ")
    ensures !StartsWith(Lower(e.model), Lower(e.make)) ==> LeftLine(e) == e.make + " " + e.model
  {
    var l := LeftLine(e);
    assert l[..|e.make| + 1] == e.make + " ";
  }
}
