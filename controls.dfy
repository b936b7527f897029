/**
 * The editing panel of components/Controls.tsx: the number a display value
 * is stripped back to for editing, and the values the layout buttons emit.
 * Handing an input's text to its formatter (what the app does on every edit)
 * restores the display value it was stripped from.
 */
module Controls {
  import opened Wrappers
  import opened JsString
  import opened JsNumber
  import opened Types
  import opened ExifHelper

  /** `parseNumberString`: "" for an empty or non-finite input, else `String(parseFloat(s))`. */
  function ParseNumberString(s: string): string {
    if s == "" then ""
    else
      match ParseFloat(s)
      case None => ""
      case Some(d) => Print(d)
  }

  lemma ParseNumberStringOf(s: string, d: Decimal)
    requires s != "" && ParseFloat(s) == Some(d)
    ensures ParseNumberString(s) == Print(d)
  {
  }

  /** Its result is "" or the shortest numeral of the number read, and reading
      that numeral again gives the same number and the same text. */
  lemma ParseNumberStringSpec(s: string)
    ensures ParseFloat(s).None? ==> ParseNumberString(s) == ""
    ensures s != "" && ParseFloat(s).Some? ==>
      var d := ParseFloat(s).value;
      && ParseNumberString(s) == Render(Canon(d))
      && ParseFloat(ParseNumberString(s)) == Some(Canon(d))
      && Value(Canon(d)) == Value(d)
    ensures ParseNumberString(ParseNumberString(s)) == ParseNumberString(s)
  {
    if s != "" && ParseFloat(s).Some? {
      var d := ParseFloat(s).value;
      var r := Print(d);
      ParseNumberStringOf(s, d);
      PrintRoundTrip(d);
      ParseNumberStringOf(r, Canon(d));
    }
  }

  /** `focalInputValue`: lower-cased, every `mm` removed, trimmed, read and rounded. */
  function FocalInputValue(e: ExifData): string {
    if e.focalLength == "" then ""
    else
      match ParseFloat(Trim(RemoveAll(Lower(e.focalLength), "mm", false)))
      case None => ""
      case Some(d) => IntStr(Round(Value(d)))
  }

  /** `fNumberInputValue`: lower-cased, one leading `f/` removed, trimmed, read. */
  function FNumberInputValue(e: ExifData): string {
    if e.fNumber == "" then ""
    else
      match ParseFloat(Trim(StripFPrefix(Lower(e.fNumber))))
      case None => ""
      case Some(d) => Print(d)
  }

  /** `isoInputValue`: every `iso` in any case removed, trimmed, read as a base-10 integer. */
  function IsoInputValue(e: ExifData): string {
    if e.iso == "" then ""
    else
      match ParseInt(Trim(RemoveAll(e.iso, "iso", true)), 10)
      case None => ""
      case Some(n) => IntStr(n)
  }

  /** `.replace(/s$/, '')`: one final `s` removed. */
  function DropFinalS(s: string): (r: string)
    ensures |s| > 0 && s[|s| - 1] == 's' ==> s == r + "s"
    ensures !(|s| > 0 && s[|s| - 1] == 's') ==> r == s
  {
    if |s| > 0 && s[|s| - 1] == 's' then s[..|s| - 1] else s
  }

  /** `shutterInputValue`: lower-cased, one final `s` removed, trimmed; no number is read. */
  function ShutterInputValue(e: ExifData): string {
    if e.exposureTime == "" then "" else Trim(DropFinalS(Lower(e.exposureTime)))
  }

  /** An empty field shows an empty input. */
  lemma EmptyFieldEmptyInput(e: ExifData)
    ensures e.focalLength == "" ==> FocalInputValue(e) == ""
    ensures e.fNumber == "" ==> FNumberInputValue(e) == ""
    ensures e.iso == "" ==> IsoInputValue(e) == ""
    ensures e.exposureTime == "" ==> ShutterInputValue(e) == ""
  {
  }

  lemma FocalInputValueOf(e: ExifData, d: Decimal)
    requires e.focalLength != "" && ParseFloat(Trim(RemoveAll(Lower(e.focalLength), "mm", false))) == Some(d)
    ensures FocalInputValue(e) == IntStr(Round(Value(d)))
  {
  }

  /** `<k>mm` is shown for editing as `<k>`, and formatting `<k>` gives `<k>mm` back. */
  lemma FocalEditRoundTrip(e: ExifData)
    requires FormatFocalLength(e.focalLength) == e.focalLength
    ensures e.focalLength != "" ==>
      e.focalLength == FocalInputValue(e) + "mm" && FocalInputValue(e) == IntStr(FocalMillimetres(e.focalLength).value)
    ensures FormatFocalLength(FocalInputValue(e)) == e.focalLength
  {
    if e.focalLength != "" {
      var k := FocalMillimetres(e.focalLength).value;
      var n := IntStr(k);
      assert e.focalLength == n + "mm";
      assert ParseFloat(Trim(RemoveAll(Lower(e.focalLength), "mm", false))) == Some(IntDecimal(k)) by {
        MillimetresRemoved(n);
        NumeralCharsFacts(n);
        TrimNoSpace(n);
        ParseIntStrPrefix(k, "");
        assert n + "" == n;
      }
      IntDecimalCanonical(k);
      FocalInputValueOf(e, IntDecimal(k));
      RoundOfInt(k);
      FocalLengthOfInt(k);
    }
  }

  /** `f/<n>` is shown for editing as `<n>`, and formatting `<n>` gives `f/<n>` back. */
  lemma FNumberEditRoundTrip(e: ExifData)
    requires FormatFNumber(e.fNumber) == e.fNumber
    ensures e.fNumber != "" ==> "f/" + FNumberInputValue(e) == e.fNumber
    ensures FormatFNumber(FNumberInputValue(e)) == e.fNumber
  {
    if e.fNumber != "" {
      var d := FNumberValue(e.fNumber).value;
      var n := Render(d);
      assert e.fNumber == "f/" + n;
      assert ParseFloat(Trim(StripFPrefix(Lower(e.fNumber)))) == Some(d) by {
        RenderChars(d);
        ApertureTextOfNumeral(n);
        ParseRender(d);
      }
      assert FNumberInputValue(e) == n by {
        CanonOfCanonical(d);
      }
      FNumberOfNumeral(d);
    }
  }

  /** `ISO <n>` is shown for editing as `<n>`, and formatting `<n>` gives `ISO <n>` back. */
  lemma IsoEditRoundTrip(e: ExifData)
    requires FormatISO(e.iso) == e.iso
    ensures e.iso != "" ==> "ISO " + IsoInputValue(e) == e.iso
    ensures FormatISO(IsoInputValue(e)) == e.iso
  {
    if e.iso != "" {
      var n := IsoValue(e.iso).value;
      var t := IntStr(n);
      assert e.iso == "ISO " + t;
      assert Trim(RemoveAll(e.iso, "iso", true)) == t by {
        IsoPrefixRemoved(t);
        IsoNumeralKept(t);
        TrimSpaceNumeral(t);
      }
      assert IsoInputValue(e) == t by {
        ParseIntOfIntStr(n);
      }
      IsoOfInt(n);
    }
  }

  /** A printed number holds no final `s` and nothing to lower-case or trim. */
  lemma ShutterTextOfNumeral(n: string)
    requires NumeralChars(n)
    ensures Trim(DropFinalS(Lower(n + "s"))) == n
  {
    NumeralCharsFacts(n);
    LowerConcat(n, "s");
    assert Lower("s") == "s";
    TrimNoSpace(n);
  }

  lemma ShutterInputValueOf(e: ExifData, t: string)
    requires e.exposureTime == t + "s" && Trim(DropFinalS(Lower(t + "s"))) == t
    ensures ShutterInputValue(e) == t
  {
  }

  /** A verbatim fraction typed in lower case and without surrounding white space comes back. */
  lemma ShutterVerbatimRoundTrip(v: string)
    requires '/' in v && NoUpper(v) && Trimmed(v)
    ensures Trim(DropFinalS(Lower(v + "s"))) == v
    ensures FormatShutter(v) == v + "s"
  {
    assert Lower(v + "s") == v + "s" by {
      assert NoUpper(v + "s");
      LowerOfLower(v + "s");
    }
    assert DropFinalS(v + "s") == v by {
      assert (v + "s")[..|v|] == v;
    }
    TrimTrimmed(v);
  }

  /** A whole or longer exposure `<n>s` comes back. */
  lemma ShutterLongRoundTrip(d: Decimal)
    requires WellFormed(d) && Value(d) >= 1.0
    ensures Trim(DropFinalS(Lower(Print(d) + "s"))) == Print(d)
    ensures FormatShutter(Print(d)) == Print(d) + "s"
  {
    var n := Print(d);
    PrintRoundTrip(d);
    ShutterTextOfNumeral(n);
    assert '/' !in n by { NumeralCharsFacts(n); }
    ShutterOfDecimal(n, Canon(d));
  }

  /** Every display value `formatShutter` produces survives the edit round
      trip, provided a fraction was typed in lower case and without
      surrounding white space (a fraction is kept verbatim, so the input's
      lower-casing and trimming would otherwise show). */
  lemma ShutterEditRoundTrip(e: ExifData, v: string)
    requires e.exposureTime == FormatShutter(v)
    requires '/' in v ==> NoUpper(v) && Trimmed(v)
    ensures FormatShutter(ShutterInputValue(e)) == e.exposureTime
  {
    if v != "" {
      ShutterCases(v);
      if '/' in v {
        ShutterVerbatimRoundTrip(v);
        ShutterInputValueOf(e, v);
      } else if ParseFloat(v).Some? {
        var d := ParseFloat(v).value;
        if Value(d) >= 1.0 {
          ShutterLongRoundTrip(d);
          ShutterInputValueOf(e, Print(d));
        } else if Value(d) > 0.0 {
          var k: nat :| k >= 1 && e.exposureTime == "1/" + NatStr(k) + "s";
          var t := "1/" + NatStr(k);
          assert e.exposureTime == t + "s";
          assert t[0] == '1' && t[1] == '/' && t[2..] == NatStr(k);
          ShutterFractionInput(t);
          ShutterInputValueOf(e, t);
        }
      }
    }
  }

  /** A lower-case fraction without surrounding white space is shown as is. */
  lemma ShutterFractionInput(t: string)
    requires |t| > 1 && t[1] == '/' && t[0] == '1'
    requires NumeralChars(t[2..])
    ensures Trim(DropFinalS(Lower(t + "s"))) == t
    ensures FormatShutter(t) == t + "s"
  {
    FractionChars(t);
    assert Lower(t + "s") == t + "s" by {
      LowerOfLower(t);
      LowerConcat(t, "s");
      assert Lower("s") == "s";
    }
    assert DropFinalS(t + "s") == t by {
      assert (t + "s")[..|t|] == t;
    }
    TrimNoSpace(t);
  }

  /** `1/<n>` holds a `/`, no upper case and no white space. */
  lemma FractionChars(t: string)
    requires |t| > 1 && t[1] == '/' && t[0] == '1'
    requires NumeralChars(t[2..])
    ensures '/' in t && NoUpper(t) && NoSpace(t)
  {
    forall i | 2 <= i < |t| ensures IsNumeralChar(t[i]) {
      assert t[i] == t[2..][i - 2];
    }
  }

  /** The three layout buttons, in order. */
  const LayoutButtons: seq<Layout> := [Left, Center, Right]

  /** The preset colours offered beside the picker. */
  const PresetColors: seq<string> := ["#ffffff", "#000000", "#111827", "#374151", "#6b7280", "#e5e7eb",
                                       "#f3f4f6", "#f59e0b", "#ef4444", "#10b981", "#3b82f6", "#8b5cf6"]
}
