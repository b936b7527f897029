/**
 * The metadata normaliser of utils/exifHelper.ts: one formatter per numeric
 * field and for the date, each total and returning "" instead of failing,
 * and the selection of tags from a decoded tag map.
 */
module ExifHelper {
  import opened Wrappers
  import opened JsString
  import opened JsNumber
  import opened Types

  // ---------------------------------------------------------------------------
  // Focal length
  // ---------------------------------------------------------------------------

  /** The number `formatFocalLength` rounds, from the cleaned text `s`: `a / b`
      when `s` holds a `/`, both halves parse and `b` is not zero, otherwise
      `parseFloat(s)`; `None` when that is not finite. */
  function FocalNumber(s: string): Option<real> {
    var whole := if ParseFloat(s).Some? then Some(Value(ParseFloat(s).value)) else None;
    if '/' in s then
      var parts := Split(s, '/');
      var na := ParseFloat(parts[0]);
      var nb := ParseFloat(parts[1]);
      if na.Some? && nb.Some? && Value(nb.value) != 0.0 then Some(Value(na.value) / Value(nb.value))
      else whole
    else whole
  }

  /** The text `formatFocalLength` parses: lower-cased, every `mm` and all white space removed. */
  function FocalText(val: string): string {
    Trim(RemoveSpaces(RemoveAll(Lower(val), "mm", false)))
  }

  /** The whole number of millimetres `formatFocalLength` displays, if any. */
  function FocalMillimetres(val: string): Option<int> {
    if val == "" then None
    else
      var num := FocalNumber(FocalText(val));
      if num.None? then None else Some(Round(num.value))
  }

  /** `formatFocalLength`: `<k>mm`, or "" when nothing finite can be read. */
  function FormatFocalLength(val: string): (r: string)
    ensures val == "" ==> r == ""
  {
    match FocalMillimetres(val)
    case None => InitialExif.focalLength
    case Some(k) => IntStr(k) + "mm"
  }

  /** Every `mm` after a numeral goes, and the numeral stays. */
  lemma MillimetresRemoved(n: string)
    requires NumeralChars(n)
    ensures RemoveAll(Lower(n + "mm"), "mm", false) == n
    ensures RemoveAll(Lower(n), "mm", false) == n
  {
    NumeralCharsFacts(n);
    LowerConcat(n, "mm");
    assert Lower("mm") == "mm";
    assert CannotStart(n, "mm", false);
    RemoveAllKeeps(n, "mm", "mm", false);
    RemoveAllKeeps(n, [], "mm", false);
    assert n + [] == n;
    assert RemoveAll("mm", "mm", false) == [];
  }

  /** Cleaning a numeral, with or without a trailing `mm`, gives the numeral. */
  lemma FocalTextOfNumeral(n: string)
    requires NumeralChars(n)
    ensures FocalText(n + "mm") == n
    ensures FocalText(n) == n
  {
    MillimetresRemoved(n);
    NumeralCharsFacts(n);
    RemoveSpacesNoSpace(n);
    TrimNoSpace(n);
  }

  /** `<k>` alone is read as `k` millimetres too. */
  lemma FocalLengthOfInt(k: int)
    ensures FocalMillimetres(IntStr(k)) == Some(k)
    ensures FormatFocalLength(IntStr(k)) == IntStr(k) + "mm"
  {
    FocalTextOfNumeral(IntStr(k));
    ReadsAsMillimetres(IntStr(k), k);
  }

  /** A displayed focal length `<k>mm` is read back as `k` millimetres. */
  lemma FocalLengthFixedPoint(k: int)
    ensures FocalMillimetres(IntStr(k) + "mm") == Some(k)
    ensures FormatFocalLength(IntStr(k) + "mm") == IntStr(k) + "mm"
  {
    FocalTextOfNumeral(IntStr(k));
    ReadsAsMillimetres(IntStr(k) + "mm", k);
  }

  /** A text that cleans to the numeral of `k` is `k` millimetres. */
  lemma ReadsAsMillimetres(val: string, k: int)
    requires val != "" && FocalText(val) == IntStr(k)
    ensures FocalMillimetres(val) == Some(k)
    ensures FormatFocalLength(val) == IntStr(k) + "mm"
  {
    assert FocalMillimetres(val) == Some(k) by {
      FocalNumberOfInt(k);
      RoundOfInt(k);
    }
  }

  lemma FocalNumberOfInt(k: int)
    ensures FocalNumber(IntStr(k)) == Some(k as real)
  {
    NumeralCharsFacts(IntStr(k));
    IntStrRoundTrip(k);
  }

  /** Re-formatting a formatted focal length changes nothing. */
  lemma FocalLengthIdempotent(val: string)
    ensures FormatFocalLength(FormatFocalLength(val)) == FormatFocalLength(val)
  {
    match FocalMillimetres(val)
    case None =>
    case Some(k) => FocalLengthFixedPoint(k);
  }

  /** Text without upper case, white space or `m` is already clean. */
  lemma FocalTextPlain(s: string)
    requires NoUpper(s) && NoSpace(s) && 'm' !in s
    ensures FocalText(s) == s
  {
    LowerOfLower(s);
    assert CannotStart(s, "mm", false);
    RemoveAllKeeps(s, [], "mm", false);
    assert s + [] == s;
    RemoveSpacesNoSpace(s);
    TrimNoSpace(s);
  }

  /** The text `<a>/<b>` of two integers is already clean. */
  lemma FractionClean(a: int, b: int)
    ensures FocalText(IntStr(a) + "/" + IntStr(b)) == IntStr(a) + "/" + IntStr(b)
  {
    var sa, sb := IntStr(a), IntStr(b);
    var s := sa + "/" + sb;
    NumeralCharsFacts(sa);
    NumeralCharsFacts(sb);
    assert NoUpper(s) && NoSpace(s) && 'm' !in s;
    FocalTextPlain(s);
  }

  /** The text `<a>/<b>` of two integers splits at its `/` into the two numerals. */
  lemma FractionSplit(a: int, b: int)
    ensures '/' in IntStr(a) + "/" + IntStr(b)
    ensures Split(IntStr(a) + "/" + IntStr(b), '/') == [IntStr(a), IntStr(b)]
  {
    var sa, sb := IntStr(a), IntStr(b);
    assert sa + "/" + sb == sa + ['/'] + sb;
    assert (sa + "/" + sb)[|sa|] == '/';
    NumeralCharsFacts(sa);
    NumeralCharsFacts(sb);
    SplitCons(sa, '/', sb);
    SplitNoSeparator(sb, '/');
  }

  /** How a text with a `/` is read: the quotient when both halves are finite
      and the divisor is not zero, otherwise the whole text. */
  lemma FocalNumberOfFraction(s: string, x: string, y: string)
    requires '/' in s && |Split(s, '/')| >= 2 && Split(s, '/')[0] == x && Split(s, '/')[1] == y
    requires ParseFloat(x).Some? && ParseFloat(y).Some?
    ensures Value(ParseFloat(y).value) != 0.0 ==>
      FocalNumber(s) == Some(Value(ParseFloat(x).value) / Value(ParseFloat(y).value))
    ensures Value(ParseFloat(y).value) == 0.0 ==>
      FocalNumber(s) == (if ParseFloat(s).Some? then Some(Value(ParseFloat(s).value)) else None)
  {
  }

  /** The millimetres shown for a non-empty text whose cleaned number is `x`. */
  lemma FocalMillimetresOf(val: string, x: real)
    requires val != "" && FocalNumber(FocalText(val)) == Some(x)
    ensures FocalMillimetres(val) == Some(Round(x))
  {
  }

  /** `parseFloat(String(k))` is `k`. */
  lemma ParseIntStr(k: int)
    ensures ParseFloat(IntStr(k)).Some? && Value(ParseFloat(IntStr(k)).value) == k as real
  {
    ParseIntStrPrefix(k, "");
    assert IntStr(k) + "" == IntStr(k);
    IntDecimalCanonical(k);
  }

  /** A rational `a/b` with a non-zero divisor gives the rounded quotient. */
  lemma FocalLengthOfRational(a: int, b: int)
    requires b != 0
    ensures FocalMillimetres(IntStr(a) + "/" + IntStr(b)) == Some(Round(a as real / b as real))
  {
    var s := IntStr(a) + "/" + IntStr(b);
    FractionClean(a, b);
    FractionSplit(a, b);
    ParseIntStr(a);
    ParseIntStr(b);
    FocalNumberOfFraction(s, IntStr(a), IntStr(b));
    FocalMillimetresOf(s, a as real / b as real);
  }

  /** A zero divisor is never divided by: the whole text is parsed, which stops at the `/`. */
  lemma FocalLengthZeroDivisor(a: int)
    ensures FocalMillimetres(IntStr(a) + "/0") == Some(a)
  {
    var s := IntStr(a) + "/0";
    assert s == IntStr(a) + "/" + IntStr(0) by {
      assert IntStr(0) == "0";
    }
    assert ParseFloat(s) == Some(IntDecimal(a)) by {
      EndsNumeralSlash("0");
      ParseIntStrPrefix(a, "/0");
    }
    assert FocalNumber(FocalText(s)) == Some(a as real) by {
      FractionClean(a, 0);
      FractionSplit(a, 0);
      ParseIntStr(a);
      ParseIntStr(0);
      FocalNumberOfFraction(s, IntStr(a), IntStr(0));
      IntDecimalCanonical(a);
    }
    FocalMillimetresOf(s, a as real);
    RoundOfInt(a);
  }

  // ---------------------------------------------------------------------------
  // Aperture
  // ---------------------------------------------------------------------------

  /** `.replace(/^f\//, '')`: one `f/` removed, and only at the start. */
  function StripFPrefix(s: string): string {
    if StartsWith(s, "f/") then s[2..] else s
  }

  /** The aperture `formatFNumber` displays, as the shortest numeral of its value. */
  function FNumberValue(val: string): (v: Option<Decimal>)
    ensures v.Some? ==> Canonical(v.value)
  {
    if val == "" then None
    else
      match ParseFloat(Trim(StripFPrefix(Lower(val))))
      case None => None
      case Some(d) =>
        CanonIsCanonical(d);
        Some(Canon(d))
  }

  /** `formatFNumber`: `f/<n>`, or "" when nothing finite can be read. */
  function FormatFNumber(val: string): (r: string)
    ensures val == "" ==> r == ""
  {
    match FNumberValue(val)
    case None => InitialExif.fNumber
    case Some(d) => "f/" + Render(d)
  }

  /** The cleaned text of `f/<n>` for a numeral `n` is `n`. */
  lemma ApertureTextOfNumeral(n: string)
    requires NumeralChars(n)
    ensures Trim(StripFPrefix(Lower("f/" + n))) == n
  {
    NumeralCharsFacts(n);
    LowerConcat("f/", n);
    assert Lower("f/") == "f/";
    assert StripFPrefix("f/" + n) == n;
    TrimNoSpace(n);
  }

  /** The aperture read from a non-empty text whose cleaned numeral is `d`. */
  lemma FNumberValueOf(val: string, d: Decimal)
    requires val != "" && ParseFloat(Trim(StripFPrefix(Lower(val)))) == Some(d)
    ensures FNumberValue(val) == Some(Canon(d))
  {
  }

  /** The cleaned text of a bare numeral is the numeral: it cannot start with `f/`. */
  lemma ApertureTextOfBareNumeral(n: string)
    requires NumeralChars(n)
    ensures Trim(StripFPrefix(Lower(n))) == n
  {
    NumeralCharsFacts(n);
    assert !StartsWith(n, "f/") by {
      if |n| >= 2 {
        assert IsNumeralChar(n[0]);
      }
    }
    TrimNoSpace(n);
  }

  /** A displayed aperture `f/<n>` is read back as the same numeral. */
  lemma FNumberFixedPoint(d: Decimal)
    requires Canonical(d)
    ensures FNumberValue("f/" + Render(d)) == Some(d)
    ensures FormatFNumber("f/" + Render(d)) == "f/" + Render(d)
  {
    var n := Render(d);
    assert ParseFloat(Trim(StripFPrefix(Lower("f/" + n)))) == Some(d) by {
      RenderChars(d);
      ApertureTextOfNumeral(n);
      ParseRender(d);
    }
    FNumberValueOf("f/" + n, d);
    CanonOfCanonical(d);
  }

  /** A bare numeral `<n>`, as the aperture input holds it, is read as itself. */
  lemma FNumberOfNumeral(d: Decimal)
    requires Canonical(d)
    ensures FNumberValue(Render(d)) == Some(d)
    ensures FormatFNumber(Render(d)) == "f/" + Render(d)
  {
    var n := Render(d);
    assert ParseFloat(Trim(StripFPrefix(Lower(n)))) == Some(d) by {
      RenderChars(d);
      ApertureTextOfBareNumeral(n);
      ParseRender(d);
    }
    FNumberValueOf(n, d);
    CanonOfCanonical(d);
  }

  lemma FNumberIdempotent(val: string)
    ensures FormatFNumber(FormatFNumber(val)) == FormatFNumber(val)
  {
    match FNumberValue(val)
    case None =>
    case Some(d) => FNumberFixedPoint(d);
  }

  /** The `f/` prefix is optional: `"f/2.8"` and `"2.8"` format alike, when
      the rest does not itself begin with `f/`. */
  lemma FNumberPrefixOptional(x: string)
    requires x != "" && !StartsWith(Lower(x), "f/")
    ensures FormatFNumber("f/" + x) == FormatFNumber(x)
  {
    LowerConcat("f/", x);
    assert Lower("f/") == "f/";
    assert StripFPrefix(Lower("f/" + x)) == Lower(x);
  }

  // ---------------------------------------------------------------------------
  // ISO
  // ---------------------------------------------------------------------------

  /** The integer `formatISO` displays: every `iso` in any case removed, then
      read as a base-10 integer. */
  function IsoValue(val: string): Option<int> {
    if val == "" then None else ParseInt(Trim(RemoveAll(val, "iso", true)), 10)
  }

  /** `formatISO`: `ISO <n>`, or "" when no integer can be read. */
  function FormatISO(val: string): (r: string)
    ensures val == "" ==> r == ""
  {
    match IsoValue(val)
    case None => InitialExif.iso
    case Some(n) => "ISO " + IntStr(n)
  }

  /** A leading `ISO ` (in any case) is dropped together with its space. */
  lemma IsoPrefixRemoved(x: string)
    ensures RemoveAll("ISO " + x, "iso", true) == " " + RemoveAll(x, "iso", true)
  {
    var s := "ISO " + x;
    assert s[..3] == "ISO";
    assert MatchesPattern(s[..3], "iso", true);
    assert s[3..] == " " + x;
    assert CannotStart(" ", "iso", true);
    RemoveAllKeeps(" ", x, "iso", true);
  }

  /** A numeral holds no `iso` to remove. */
  lemma IsoNumeralKept(t: string)
    requires NumeralChars(t)
    ensures RemoveAll(t, "iso", true) == t
  {
    NumeralCharsFacts(t);
    assert CannotStart(t, "iso", true);
    RemoveAllKeeps(t, [], "iso", true);
    assert t + [] == t;
  }

  /** A space before a numeral is trimmed away. */
  lemma TrimSpaceNumeral(t: string)
    requires NumeralChars(t)
    ensures Trim(" " + t) == t
  {
    assert TrimStart(" " + t) == TrimStart(t);
    NumeralCharsFacts(t);
    TrimNoSpace(t);
  }

  /** A displayed sensitivity `ISO <n>` is read back as `n`. */
  lemma IsoFixedPoint(n: int)
    ensures IsoValue("ISO " + IntStr(n)) == Some(n)
    ensures FormatISO("ISO " + IntStr(n)) == "ISO " + IntStr(n)
  {
    var t := IntStr(n);
    assert Trim(RemoveAll("ISO " + t, "iso", true)) == t by {
      IsoPrefixRemoved(t);
      IsoNumeralKept(t);
      TrimSpaceNumeral(t);
    }
    ParseIntOfIntStr(n);
  }

  /** A bare integer `<n>`, as the ISO input holds it, is read as itself. */
  lemma IsoOfInt(n: int)
    ensures IsoValue(IntStr(n)) == Some(n)
    ensures FormatISO(IntStr(n)) == "ISO " + IntStr(n)
  {
    var t := IntStr(n);
    assert Trim(RemoveAll(t, "iso", true)) == t by {
      IsoNumeralKept(t);
      NumeralCharsFacts(t);
      TrimNoSpace(t);
    }
    ParseIntOfIntStr(n);
  }

  lemma ISOIdempotent(val: string)
    ensures FormatISO(FormatISO(val)) == FormatISO(val)
  {
    match IsoValue(val)
    case None =>
    case Some(n) => IsoFixedPoint(n);
  }

  /** `"ISO 100"` and `"100"` format alike: the label never matters. */
  lemma ISOLabelIgnored(x: string)
    ensures FormatISO("ISO " + x) == FormatISO(x)
  {
    var t := RemoveAll(x, "iso", true);
    assert Trim(RemoveAll("ISO " + x, "iso", true)) == Trim(t) by {
      IsoPrefixRemoved(x);
      TrimLeadingSpace(t);
    }
    if x == "" {
      assert Trim(t) == "";
      NothingAfterLabel("ISO " + x);
    } else {
      SameIsoText("ISO " + x, x);
    }
  }

  /** Two inputs that clean to the same text format alike. */
  lemma SameIsoText(a: string, b: string)
    requires a != "" && b != ""
    requires Trim(RemoveAll(a, "iso", true)) == Trim(RemoveAll(b, "iso", true))
    ensures FormatISO(a) == FormatISO(b)
  {
    assert IsoValue(a) == IsoValue(b);
  }

  /** An input that cleans to nothing formats to "". */
  lemma NothingAfterLabel(v: string)
    requires Trim(RemoveAll(v, "iso", true)) == ""
    ensures FormatISO(v) == ""
  {
    assert ParseInt("", 10).None?;
  }

  // ---------------------------------------------------------------------------
  // Shutter speed
  // ---------------------------------------------------------------------------

  /** `formatShutter`. */
  function FormatShutter(val: string): (r: string)
    ensures val == "" ==> r == ""
  {
    if val == "" then InitialExif.exposureTime
    else if '/' in val then val + "s"
    else
      match ParseFloat(val)
      case None => InitialExif.exposureTime
      case Some(d) =>
        if Value(d) >= 1.0 then Print(d) + "s"
        else if Value(d) > 0.0 then "1/" + IntStr(Round(1.0 / Value(d))) + "s"
        else InitialExif.exposureTime
  }

  /** The four outcomes of `formatShutter` on a non-empty input. */
  lemma ShutterCases(val: string)
    requires val != ""
    ensures '/' in val ==> FormatShutter(val) == val + "s"
    ensures '/' !in val && ParseFloat(val).None? ==> FormatShutter(val) == ""
    ensures '/' !in val && ParseFloat(val).Some? ==>
      var n := Value(ParseFloat(val).value);
      && (n >= 1.0 ==> FormatShutter(val) == Print(ParseFloat(val).value) + "s")
      && (0.0 < n < 1.0 ==> exists k: nat :: k >= 1 && FormatShutter(val) == "1/" + NatStr(k) + "s"
                                           && k as real - 0.5 <= 1.0 / n < k as real + 0.5)
      && (n <= 0.0 ==> FormatShutter(val) == "")
  {
    if '/' !in val && ParseFloat(val).Some? {
      ShutterOfDecimal(val, ParseFloat(val).value);
    }
  }

  /** How a text without `/` that reads as `d` is formatted. */
  lemma ShutterOfDecimal(val: string, d: Decimal)
    requires val != "" && '/' !in val && ParseFloat(val) == Some(d)
    ensures Value(d) >= 1.0 ==> FormatShutter(val) == Print(d) + "s"
    ensures 0.0 < Value(d) < 1.0 ==> exists k: nat :: k >= 1 && FormatShutter(val) == "1/" + NatStr(k) + "s"
                                                    && k as real - 0.5 <= 1.0 / Value(d) < k as real + 0.5
    ensures Value(d) <= 0.0 ==> FormatShutter(val) == ""
  {
    var n := Value(d);
    if 0.0 < n < 1.0 {
      var k := ReciprocalDenominator(n);
      assert FormatShutter(val) == "1/" + IntStr(Round(1.0 / n)) + "s";
      assert IntStr(Round(1.0 / n)) == NatStr(k);
    }
  }

  /** A time below one second is shown over the rounded reciprocal, at least 1. */
  lemma ReciprocalDenominator(n: real) returns (k: nat)
    requires 0.0 < n < 1.0
    ensures k == Round(1.0 / n) && k >= 1
    ensures k as real - 0.5 <= 1.0 / n < k as real + 0.5
  {
    assert 1.0 / n > 1.0;
    k := Round(1.0 / n);
  }

  /** Unlike the other formatters, `formatShutter` is not idempotent: a
      formatted fraction gains a second `s`. */
  lemma ShutterNotIdempotent()
    ensures FormatShutter("1/200") == "1/200s"
    ensures FormatShutter(FormatShutter("1/200")) == "1/200ss"
  {
    assert '/' in "1/200";
    assert '/' in "1/200s";
  }

  // ---------------------------------------------------------------------------
  // Date
  // ---------------------------------------------------------------------------

  /** `formatDate`: the text before the first space, when it has exactly three
      colon-separated parts, re-joined with dots; otherwise the input as is. */
  function FormatDate(val: string): (r: string)
    ensures val == "" ==> r == ""
  {
    if val == "" then InitialExif.dateTime
    else
      var parts := Split(Split(val, ' ')[0], ':');
      if |parts| == 3 then parts[0] + "." + parts[1] + "." + parts[2] else val
  }

  /** The date part holds no space, and none of its colon-separated pieces a
      colon or a space. */
  lemma DatePartClean(val: string, k: int)
    requires 0 <= k < |Split(Split(val, ' ')[0], ':')|
    ensures ':' !in Split(Split(val, ' ')[0], ':')[k]
    ensures ' ' !in Split(Split(val, ' ')[0], ':')[k]
  {
    var head := Split(val, ' ')[0];
    assert ' ' !in head by {
      SplitPartsClean(val, ' ');
    }
    SplitPartsClean(head, ':');
    SplitPartsAvoid(head, ':', ' ');
  }

  /** Three pieces joined with dots contain none of a character that none of them contains. */
  lemma DottedAvoids(a: string, b: string, c: string, x: char)
    requires x != '.' && x !in a && x !in b && x !in c
    ensures x !in a + "." + b + "." + c
  {
  }

  /** Joining space-free pieces with colons leaves no space. */
  lemma DottedAvoidsColon(a: string, b: string, c: string)
    requires ' ' !in a && ' ' !in b && ' ' !in c
    ensures ' ' !in a + ":" + b + ":" + c
  {
  }

  /** A reformatted date holds no colon and no space, and the input is kept
      whenever its date part is not three colon-separated parts. */
  lemma DateShape(val: string)
    ensures var parts := Split(Split(val, ' ')[0], ':');
      && (|parts| == 3 ==> ':' !in FormatDate(val) && ' ' !in FormatDate(val))
      && (|parts| != 3 ==> FormatDate(val) == val)
  {
    var parts := Split(Split(val, ' ')[0], ':');
    if |parts| == 3 && val != "" {
      DatePartClean(val, 0);
      DatePartClean(val, 1);
      DatePartClean(val, 2);
      DottedAvoids(parts[0], parts[1], parts[2], ':');
      DottedAvoids(parts[0], parts[1], parts[2], ' ');
    }
  }

  /** Re-formatting a formatted date changes nothing. */
  lemma DateIdempotent(val: string)
    ensures FormatDate(FormatDate(val)) == FormatDate(val)
  {
    var r := FormatDate(val);
    var parts := Split(Split(val, ' ')[0], ':');
    DateShape(val);
    if |parts| == 3 && val != "" {
      SplitNoSeparator(r, ' ');
      SplitNoSeparator(r, ':');
    }
  }

  /** Splitting `a:b:c` at its colons gives the three pieces. */
  lemma SplitThree(a: string, b: string, c: string, sep: char)
    requires sep !in a && sep !in b && sep !in c
    ensures Split(a + [sep] + b + [sep] + c, sep) == [a, b, c]
  {
    var rest := b + [sep] + c;
    Regroup(a, b, c, sep);
    assert Split(rest, sep) == [b, c] by {
      SplitCons(b, sep, c);
      SplitNoSeparator(c, sep);
    }
    SplitCons(a, sep, rest);
    assert [a] + [b, c] == [a, b, c];
  }

  lemma Regroup(a: string, b: string, c: string, sep: char)
    ensures a + [sep] + b + [sep] + c == a + [sep] + (b + [sep] + c)
  {
  }

  /** The EXIF `DateTimeOriginal` layout `YYYY:MM:DD HH:MM:SS` keeps only the
      date, with dots. */
  lemma DateOfExifLayout(y: string, m: string, d: string, time: string)
    requires ':' !in y && ':' !in m && ':' !in d
    requires ' ' !in y && ' ' !in m && ' ' !in d
    ensures FormatDate(y + ":" + m + ":" + d + " " + time) == y + "." + m + "." + d
  {
    var date := y + ":" + m + ":" + d;
    var val := date + " " + time;
    assert Split(date, ':') == [y, m, d] by {
      SplitThree(y, m, d, ':');
    }
    assert Split(val, ' ')[0] == date by {
      assert ' ' !in date by {
        DottedAvoidsColon(y, m, d);
      }
      SplitCons(date, ' ', time);
    }
  }

  // ---------------------------------------------------------------------------
  // Tag selection
  // ---------------------------------------------------------------------------

  /** One element of a decoded tag value. */
  datatype Scalar = Text(text: string) | Number(num: Decimal)

  /** The `value` of a decoded tag: missing, one scalar, or an array. */
  datatype TagValue = NoValue | Single(item: Scalar) | Many(items: seq<Scalar>)

  /** A decoded tag; an empty `description` stands for a missing one. */
  datatype Tag = Tag(description: string, value: TagValue)

  /** What `getTag` does: a string, `undefined`, or an exception. */
  datatype Lookup = Found(text: string) | NotFound | Thrown

  /** JavaScript truthiness of a scalar. */
  predicate Truthy(x: Scalar) {
    match x
    case Text(s) => s != ""
    case Number(d) => Value(d) != 0.0
  }

  /** `toString` of a scalar. */
  function ScalarText(x: Scalar): string {
    match x
    case Text(s) => s
    case Number(d) => Print(d)
  }

  /** `getTag`: the description when non-empty, else a truthy value as a
      string (the first element of an array; an empty array makes
      `value[0].toString()` throw). */
  function GetTag(tags: map<string, Tag>, key: string): Lookup {
    if key !in tags then NotFound
    else
      var tag := tags[key];
      if tag.description != "" then Found(tag.description)
      else
        match tag.value
        case NoValue => NotFound
        case Single(x) => if Truthy(x) then Found(ScalarText(x)) else NotFound
        case Many(xs) => if xs == [] then Thrown else Found(ScalarText(xs[0]))
  }

  /** `getTag(key) || fallback`. */
  function OrElse(l: Lookup, fallback: string): string
    requires !l.Thrown?
  {
    if l.Found? && l.text != "" then l.text else fallback
  }

  /** A tag's text as a formatter receives it; `undefined` and "" are treated alike by every formatter. */
  function Arg(l: Lookup): string
    requires !l.Thrown?
  {
    if l.Found? then l.text else ""
  }

  /** `getTag('LensModel') || getTag('Lens') || ''`: `Lens` is only consulted
      when `LensModel` gives nothing. */
  function LensLookup(tags: map<string, Tag>): Lookup {
    var primary := GetTag(tags, "LensModel");
    if primary.Thrown? || (primary.Found? && primary.text != "") then primary
    else GetTag(tags, "Lens")
  }

  /** The fixed-point fields of a record: focal length, aperture and ISO are
      already in the form their formatter produces. */
  predicate Normalized(e: ExifData) {
    && FormatFocalLength(e.focalLength) == e.focalLength
    && FormatFNumber(e.fNumber) == e.fNumber
    && FormatISO(e.iso) == e.iso
  }

  /** `extractExif`, given what the metadata decoder returned (`None` when it
      threw). Any exception yields `INITIAL_EXIF`. */
  function ExtractExif(loaded: Option<map<string, Tag>>): (r: ExifData)
    ensures loaded.None? ==> r == InitialExif
    ensures Normalized(r)
    ensures FormatDate(r.dateTime) == r.dateTime
  {
    if loaded.None? then InitialExif
    else
      var tags := loaded.value;
      var make := GetTag(tags, "Make");
      var model := GetTag(tags, "Model");
      var lens := LensLookup(tags);
      var focal := GetTag(tags, "FocalLength");
      var fnum := GetTag(tags, "FNumber");
      var shutter := GetTag(tags, "ExposureTime");
      var iso := GetTag(tags, "ISOSpeedRatings");
      var date := GetTag(tags, "DateTimeOriginal");
      if make.Thrown? || model.Thrown? || lens.Thrown? || focal.Thrown? || fnum.Thrown?
         || shutter.Thrown? || iso.Thrown? || date.Thrown?
      then InitialExif
      else
        var r := ExifData(
          OrElse(make, InitialExif.make),
          OrElse(model, InitialExif.model),
          OrElse(lens, InitialExif.lens),
          FormatFocalLength(Arg(focal)),
          FormatFNumber(Arg(fnum)),
          FormatShutter(Arg(shutter)),
          FormatISO(Arg(iso)),
          FormatDate(Arg(date)));
        FocalLengthIdempotent(Arg(focal));
        FNumberIdempotent(Arg(fnum));
        ISOIdempotent(Arg(iso));
        DateIdempotent(Arg(date));
        r
  }

  /** Only a tag with no description and an empty array value makes `getTag`
      throw: every other tag, and a missing one, is read without failing. */
  lemma GetTagThrows(tags: map<string, Tag>, key: string)
    ensures GetTag(tags, key).Thrown? <==> key in tags && tags[key] == Tag("", Many([]))
  {
  }

  /** No lookup `extractExif` performs throws; `Lens` counts only when it is read. */
  predicate NoLookupThrows(tags: map<string, Tag>) {
    && !GetTag(tags, "Make").Thrown? && !GetTag(tags, "Model").Thrown? && !LensLookup(tags).Thrown?
    && !GetTag(tags, "FocalLength").Thrown? && !GetTag(tags, "FNumber").Thrown?
    && !GetTag(tags, "ExposureTime").Thrown? && !GetTag(tags, "ISOSpeedRatings").Thrown?
    && !GetTag(tags, "DateTimeOriginal").Thrown?
  }

  /** `LensModel` gives a non-empty text. */
  predicate LensModelGives(tags: map<string, Tag>) {
    GetTag(tags, "LensModel").Found? && GetTag(tags, "LensModel").text != ""
  }

  /** The lens falls back from `LensModel` to `Lens`: a `LensModel` that gives
      nothing (missing, or an empty text) hands the lookup to `Lens`, and one
      that gives a text is the lens. */
  lemma LensFallback(tags: map<string, Tag>)
    ensures !GetTag(tags, "LensModel").Thrown? && !LensModelGives(tags) ==> LensLookup(tags) == GetTag(tags, "Lens")
    ensures LensModelGives(tags) ==> LensLookup(tags) == GetTag(tags, "LensModel")
  {
  }

  /** A non-empty `LensModel` description wins, whatever `Lens` holds (even a
      value whose reading would throw, since it is never read). */
  lemma LensModelWins(tags: map<string, Tag>, lensModel: string)
    requires lensModel != ""
    requires "LensModel" in tags && tags["LensModel"].description == lensModel
    ensures LensLookup(tags) == Found(lensModel)
  {
  }

  /** When no lookup throws, each field comes from its own tag: make, model and
      lens are the texts found or "", the others go through their formatter. */
  lemma ExtractedFields(tags: map<string, Tag>)
    requires NoLookupThrows(tags)
    ensures ExtractExif(Some(tags)).make == OrElse(GetTag(tags, "Make"), "")
    ensures ExtractExif(Some(tags)).model == OrElse(GetTag(tags, "Model"), "")
    ensures ExtractExif(Some(tags)).lens == OrElse(LensLookup(tags), "")
    ensures ExtractExif(Some(tags)).focalLength == FormatFocalLength(Arg(GetTag(tags, "FocalLength")))
    ensures ExtractExif(Some(tags)).fNumber == FormatFNumber(Arg(GetTag(tags, "FNumber")))
    ensures ExtractExif(Some(tags)).exposureTime == FormatShutter(Arg(GetTag(tags, "ExposureTime")))
    ensures ExtractExif(Some(tags)).iso == FormatISO(Arg(GetTag(tags, "ISOSpeedRatings")))
    ensures ExtractExif(Some(tags)).dateTime == FormatDate(Arg(GetTag(tags, "DateTimeOriginal")))
  {
  }

  /** The lens shown: the `LensModel` text, else the `Lens` text, else "". */
  lemma ExtractedLens(tags: map<string, Tag>)
    requires NoLookupThrows(tags)
    ensures LensModelGives(tags) ==> ExtractExif(Some(tags)).lens == GetTag(tags, "LensModel").text
    ensures !LensModelGives(tags) ==> ExtractExif(Some(tags)).lens == OrElse(GetTag(tags, "Lens"), "")
  {
    ExtractedFields(tags);
    LensFallback(tags);
  }

  /** Any lookup that throws makes the whole extraction return `INITIAL_EXIF`. */
  lemma AnyThrowAborts(tags: map<string, Tag>)
    requires !NoLookupThrows(tags)
    ensures ExtractExif(Some(tags)) == InitialExif
  {
  }

  /** The tags `extractExif` always reads. */
  const AlwaysRead: set<string> :=
    {"Make", "Model", "LensModel", "FocalLength", "FNumber", "ExposureTime", "ISOSpeedRatings", "DateTimeOriginal"}

  /** An empty array value without a description aborts the extraction when
      its tag is read: always for the tags read unconditionally, and for
      `Lens` when `LensModel` gives nothing. */
  lemma EmptyArrayAborts(tags: map<string, Tag>, key: string)
    requires key in tags && tags[key] == Tag("", Many([]))
    ensures key in AlwaysRead ==> ExtractExif(Some(tags)) == InitialExif
    ensures key == "Lens" && !LensModelGives(tags) ==> ExtractExif(Some(tags)) == InitialExif
  {
    GetTagThrows(tags, key);
    if key in AlwaysRead || (key == "Lens" && !LensModelGives(tags)) {
      LensFallback(tags);
      AnyThrowAborts(tags);
    }
  }

  /** A description is preferred over the value, and an array contributes its first element. */
  lemma MakeAndModelSelection(tags: map<string, Tag>, make: string, first: Scalar, rest: seq<Scalar>)
    requires make != ""
    requires "Make" in tags && tags["Make"].description == make
    requires "Model" in tags && tags["Model"] == Tag("", Many([first] + rest))
    requires forall k :: k in tags && k != "Make" && k != "Model" ==> tags[k].description != ""
    ensures ExtractExif(Some(tags)).make == make
    ensures ExtractExif(Some(tags)).model == ScalarText(first)
  {
    SelectedLookups(tags, make, first, rest);
    ExtractedFields(tags);
  }

  /** The lookups of `MakeAndModelSelection`'s tag map. */
  lemma SelectedLookups(tags: map<string, Tag>, make: string, first: Scalar, rest: seq<Scalar>)
    requires make != ""
    requires "Make" in tags && tags["Make"].description == make
    requires "Model" in tags && tags["Model"] == Tag("", Many([first] + rest))
    requires forall k :: k in tags && k != "Make" && k != "Model" ==> tags[k].description != ""
    ensures GetTag(tags, "Make") == Found(make) && GetTag(tags, "Model") == Found(ScalarText(first))
    ensures NoLookupThrows(tags)
  {
    Described(tags, "LensModel");
    Described(tags, "Lens");
    Described(tags, "FocalLength");
    Described(tags, "FNumber");
    Described(tags, "ExposureTime");
    Described(tags, "ISOSpeedRatings");
    Described(tags, "DateTimeOriginal");
  }

  /** A tag that is absent or described never throws. */
  lemma Described(tags: map<string, Tag>, key: string)
    requires key in tags ==> tags[key].description != ""
    ensures !GetTag(tags, key).Thrown?
  {
  }
}
