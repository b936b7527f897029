/**
 * The JavaScript number conversions the formatters rely on, on exact
 * values: `parseFloat`, `parseInt(s, radix)`, `Math.round` and the number
 * to string conversion of `String(n)` and template literals.
 *
 * `parseFloat` is modelled by the decimal numeral it reads (its sign, whole
 * digits and fraction digits); the number is `Value` of that numeral. `None`
 * stands for a result that `isFinite` rejects (NaN or an infinity), which is
 * the only thing every caller in the source tests.
 */
module JsNumber {
  import opened Wrappers
  import opened JsString

  /** Value of a digit in any radix up to 36; 36 for a character that is no digit. */
  function DigitValue(c: char): nat {
    if '0' <= c <= '9' then c as int - '0' as int
    else if 'a' <= c <= 'z' then c as int - 'a' as int + 10
    else if 'A' <= c <= 'Z' then c as int - 'A' as int + 10
    else 36
  }

  predicate IsDigitIn(c: char, radix: nat) {
    DigitValue(c) < radix
  }

  predicate AllDigits(s: string, radix: nat) {
    forall i :: 0 <= i < |s| ==> IsDigitIn(s[i], radix)
  }

  /** The longest prefix of `s` made of digits of the radix. */
  function DigitRun(s: string, radix: nat): (r: string)
    ensures |r| <= |s| && r == s[..|r|] && AllDigits(r, radix)
    ensures |r| < |s| ==> !IsDigitIn(s[|r|], radix)
  {
    if s != [] && IsDigitIn(s[0], radix) then [s[0]] + DigitRun(s[1..], radix) else []
  }

  lemma {:induction false} DigitRunStops(w: string, rest: string, radix: nat)
    requires AllDigits(w, radix)
    requires rest == [] || !IsDigitIn(rest[0], radix)
    ensures DigitRun(w + rest, radix) == w
    decreases |w|
  {
    if w == [] {
      assert w + rest == rest;
    } else {
      assert (w + rest)[1..] == w[1..] + rest;
      DigitRunStops(w[1..], rest, radix);
    }
  }

  /** The number a digit string denotes in the radix. */
  function DigitsValue(s: string, radix: nat): nat {
    if s == [] then 0 else DigitsValue(s[..|s| - 1], radix) * radix + DigitValue(s[|s| - 1])
  }

  function Pow10(n: nat): (p: nat)
    ensures p >= 1
  {
    if n == 0 then 1 else 10 * Pow10(n - 1)
  }

  /** A decimal numeral as `parseFloat` reads it: `[sign] whole [. frac]`. */
  datatype Decimal = Decimal(negative: bool, whole: string, frac: string)

  predicate WellFormed(d: Decimal) {
    AllDigits(d.whole, 10) && AllDigits(d.frac, 10)
  }

  /** The number the fraction digits `s` stand for after the point. */
  function FracPart(s: string): real {
    DigitsValue(s, 10) as real / Pow10(|s|) as real
  }

  /** The exact number a numeral denotes. */
  function Value(d: Decimal): real {
    var m := DigitsValue(d.whole, 10) as real + FracPart(d.frac);
    if d.negative then -m else m
  }

  /** `parseFloat(s)`, read as a finite number: leading white space, an
      optional sign, digits with an optional fraction; `None` when no digit
      is there (NaN), and for `Infinity`, which `isFinite` rejects. */
  function ParseFloat(s: string): (r: Option<Decimal>)
    ensures r.Some? ==> WellFormed(r.value) && (r.value.whole != [] || r.value.frac != [])
  {
    var t := TrimStart(s);
    var negative := |t| > 0 && t[0] == '-';
    ReadNumeral(negative, if |t| > 0 && (t[0] == '-' || t[0] == '+') then t[1..] else t)
  }

  /** The unsigned part of `parseFloat`: digits with an optional fraction. */
  function ReadNumeral(negative: bool, u: string): (r: Option<Decimal>)
    ensures r.Some? ==> WellFormed(r.value) && (r.value.whole != [] || r.value.frac != [])
  {
    var w := DigitRun(u, 10);
    var rest := u[|w|..];
    var f := if |rest| > 0 && rest[0] == '.' then DigitRun(rest[1..], 10) else [];
    if w == [] && f == [] then None else Some(Decimal(negative, w, f))
  }

  /** `parseInt(s, radix)` for the radixes the source uses: leading white
      space, an optional sign, for radix 16 an optional `0x`, then the longest
      run of digits; `None` (NaN) when there is no digit. */
  function ParseInt(s: string, radix: nat): (r: Option<int>)
    requires radix == 10 || radix == 16
  {
    var t := TrimStart(s);
    var negative := |t| > 0 && t[0] == '-';
    var u := if |t| > 0 && (t[0] == '-' || t[0] == '+') then t[1..] else t;
    var v := if radix == 16 && |u| >= 2 && u[0] == '0' && (u[1] == 'x' || u[1] == 'X') then u[2..] else u;
    var w := DigitRun(v, radix);
    if w == [] then None
    else Some(if negative then -(DigitsValue(w, radix) as int) else DigitsValue(w, radix))
  }

  function StripLeadingZeros(s: string): (r: string)
    ensures |r| <= |s| && r == s[|s| - |r|..]
    ensures AllDigits(s, 10) ==> AllDigits(r, 10)
    ensures r == [] || r[0] != '0'
  {
    if s != [] && s[0] == '0' then StripLeadingZeros(s[1..]) else s
  }

  function StripTrailingZeros(s: string): (r: string)
    ensures |r| <= |s| && r == s[..|r|]
    ensures AllDigits(s, 10) ==> AllDigits(r, 10)
    ensures r == [] || r[|r| - 1] != '0'
  {
    if s != [] && s[|s| - 1] == '0' then StripTrailingZeros(s[..|s| - 1]) else s
  }

  /** The shortest numeral of the same number: no leading zeros in the whole
      part (but at least one digit), no trailing zeros in the fraction, no
      sign on zero. */
  function Canon(d: Decimal): Decimal {
    var w := StripLeadingZeros(d.whole);
    var f := StripTrailingZeros(d.frac);
    Decimal(d.negative && (w != [] || f != []), if w == [] then "0" else w, f)
  }

  predicate Canonical(d: Decimal) {
    && WellFormed(d)
    && |d.whole| > 0
    && (d.whole[0] == '0' ==> |d.whole| == 1)
    && (d.frac != [] ==> d.frac[|d.frac| - 1] != '0')
    && (d.negative ==> d.whole != "0" || d.frac != [])
  }

  function Render(d: Decimal): string {
    (if d.negative then "-" else "") + d.whole + (if d.frac == [] then "" else "." + d.frac)
  }

  /** `String(n)` of the number a numeral denotes (the plain decimal form). */
  function Print(d: Decimal): string {
    Render(Canon(d))
  }

  /** A numeral without fraction digits denotes its whole digits. */
  lemma WholeValue(w: string)
    ensures Value(Decimal(false, w, "")) == DigitsValue(w, 10) as real
  {
    assert FracPart("") == 0.0;
  }

  /** Rounding a whole number leaves it. */
  lemma RoundOfInt(k: int)
    ensures Round(k as real) == k
  {
  }

  /** The characters a printed number is made of. */
  predicate IsNumeralChar(c: char) {
    '0' <= c <= '9' || c == '-' || c == '.'
  }

  predicate NumeralChars(s: string) {
    forall i :: 0 <= i < |s| ==> IsNumeralChar(s[i])
  }

  lemma NumeralCharsFacts(s: string)
    requires NumeralChars(s)
    ensures NoSpace(s) && NoUpper(s) && Lower(s) == s
    ensures '/' !in s && 's' !in s && 'm' !in s
  {
  }

  lemma {:induction false} StripLeadingZerosValue(s: string)
    requires AllDigits(s, 10)
    ensures DigitsValue(StripLeadingZeros(s), 10) == DigitsValue(s, 10)
    decreases |s|
  {
    if s != [] && s[0] == '0' {
      StripLeadingZerosValue(s[1..]);
      LeadingZeroValue(s[1..]);
      assert s == "0" + s[1..];
    }
  }

  lemma {:induction false} LeadingZeroValue(s: string)
    ensures DigitsValue("0" + s, 10) == DigitsValue(s, 10)
    decreases |s|
  {
    if s != [] {
      var t := "0" + s;
      assert t[..|t| - 1] == "0" + s[..|s| - 1];
      LeadingZeroValue(s[..|s| - 1]);
    }
  }

  lemma {:induction false} StripTrailingZerosValue(s: string)
    ensures FracPart(StripTrailingZeros(s)) == FracPart(s)
    decreases |s|
  {
    if s != [] && s[|s| - 1] == '0' {
      var t := s[..|s| - 1];
      StripTrailingZerosValue(t);
      assert DigitsValue(s, 10) == 10 * DigitsValue(t, 10);
      assert Pow10(|s|) == 10 * Pow10(|t|);
      TenthOfRatio(DigitsValue(t, 10), Pow10(|t|));
    }
  }

  lemma TenthOfRatio(n: nat, p: nat)
    requires p >= 1
    ensures (10 * n) as real / (10 * p) as real == n as real / p as real
  {
  }

  /** The shortest numeral denotes the same number. */
  lemma CanonValue(d: Decimal)
    requires WellFormed(d)
    ensures Value(Canon(d)) == Value(d)
  {
    var c := Canon(d);
    assert DigitsValue(c.whole, 10) == DigitsValue(d.whole, 10) by {
      CanonWholeValue(d.whole);
    }
    assert FracPart(c.frac) == FracPart(d.frac) by {
      StripTrailingZerosValue(d.frac);
    }
    if d.negative && !c.negative {
      assert DigitsValue(d.whole, 10) == 0 by {
        StripLeadingZerosValue(d.whole);
      }
      assert FracPart(d.frac) == 0.0 by {
        StripTrailingZerosValue(d.frac);
        assert FracPart([]) == 0.0;
      }
    }
  }

  /** Dropping leading zeros, or all of them for `0`, keeps the value of the whole part. */
  lemma CanonWholeValue(w: string)
    requires AllDigits(w, 10)
    ensures var z := StripLeadingZeros(w); DigitsValue(if z == [] then "0" else z, 10) == DigitsValue(w, 10)
  {
    StripLeadingZerosValue(w);
    assert DigitsValue("0", 10) == 0;
  }

  lemma CanonIsCanonical(d: Decimal)
    requires WellFormed(d)
    ensures Canonical(Canon(d))
  {
  }

  lemma CanonOfCanonical(d: Decimal)
    requires Canonical(d)
    ensures Canon(d) == d
  {
    var w := StripLeadingZeros(d.whole);
    assert (if w == [] then "0" else w) == d.whole && (w == [] <==> d.whole == "0") by {
      CanonicalWhole(d.whole);
    }
    assert StripTrailingZeros(d.frac) == d.frac;
  }

  /** A canonical whole part loses nothing but a lone `0`. */
  lemma CanonicalWhole(w: string)
    requires |w| > 0 && (w[0] == '0' ==> |w| == 1)
    ensures StripLeadingZeros(w) == (if w == "0" then [] else w)
  {
    if w[0] == '0' {
      assert w == "0";
      assert StripLeadingZeros(w) == StripLeadingZeros([]);
    }
  }

  lemma ReadRendered(d: Decimal)
    requires Canonical(d)
    ensures ReadNumeral(d.negative, d.whole + (if d.frac == [] then "" else "." + d.frac)) == Some(d)
  {
    var tail := if d.frac == [] then "" else "." + d.frac;
    var u := d.whole + tail;
    DigitRunStops(d.whole, tail, 10);
    assert u[|d.whole|..] == tail;
    if d.frac != [] {
      DigitRunStops(d.frac, [], 10);
      assert tail[1..] == d.frac + [];
    }
  }

  /** `parseFloat` reads a printed number back exactly. */
  lemma ParseRender(d: Decimal)
    requires Canonical(d)
    ensures ParseFloat(Render(d)) == Some(d)
  {
    var u := d.whole + (if d.frac == [] then "" else "." + d.frac);
    ReadRendered(d);
    assert u != [] && IsDigitIn(u[0], 10) by {
      assert u[0] == d.whole[0];
    }
    RenderSplit(d);
    if d.negative {
      SignedRead("-" + u, d);
    } else {
      UnsignedRead(u, d);
    }
  }

  /** A printed numeral is its sign followed by its digits. */
  lemma RenderSplit(d: Decimal)
    ensures var u := d.whole + (if d.frac == [] then "" else "." + d.frac);
      Render(d) == (if d.negative then "-" + u else u) && ("-" + u)[1..] == u
  {
  }

  lemma UnsignedRead(u: string, d: Decimal)
    requires u != [] && IsDigitIn(u[0], 10) && ReadNumeral(false, u) == Some(d)
    ensures ParseFloat(u) == Some(d)
  {
    ParseFloatUnsigned(u);
  }

  lemma SignedRead(s: string, d: Decimal)
    requires |s| > 1 && s[0] == '-' && ReadNumeral(true, s[1..]) == Some(d)
    ensures ParseFloat(s) == Some(d)
  {
    ParseFloatNegative(s);
  }

  /** Printing then parsing keeps the number and prints the same way again:
      the fact behind every idempotence law of the formatters. */
  lemma PrintRoundTrip(d: Decimal)
    requires WellFormed(d)
    ensures ParseFloat(Print(d)) == Some(Canon(d))
    ensures Print(Canon(d)) == Print(d)
    ensures Value(Canon(d)) == Value(d)
    ensures NumeralChars(Print(d)) && |Print(d)| > 0
  {
    CanonValue(d);
    CanonIsCanonical(d);
    ParseRender(Canon(d));
    CanonOfCanonical(Canon(d));
    RenderChars(Canon(d));
  }

  lemma RenderChars(d: Decimal)
    requires Canonical(d)
    ensures NumeralChars(Render(d)) && |Render(d)| > 0
  {
    var sign := if d.negative then "-" else "";
    var tail := if d.frac == [] then "" else "." + d.frac;
    assert NumeralChars(sign) && NumeralChars(d.whole) && NumeralChars(tail);
    assert Render(d) == sign + d.whole + tail;
  }

  /** `Math.round`: the nearest integer, halves going up. */
  function Round(x: real): (n: int)
    ensures x - 0.5 < n as real <= x + 0.5
  {
    (x + 0.5).Floor
  }

  function DigitChar(n: nat): (c: char)
    requires n < 10
    ensures '0' <= c <= '9' && DigitValue(c) == n
  {
    ('0' as int + n) as char
  }

  /** The decimal digits of a natural number. */
  function NatStr(n: nat): (s: string)
    ensures |s| > 0 && AllDigits(s, 10) && NumeralChars(s)
    ensures s[0] == '0' ==> n == 0 && |s| == 1
    decreases n
  {
    if n < 10 then [DigitChar(n)] else NatStr(n / 10) + [DigitChar(n % 10)]
  }

  /** `String(k)` for an integer. */
  function IntStr(k: int): (s: string)
    ensures |s| > 0 && NumeralChars(s)
  {
    if k < 0 then "-" + NatStr(-k) else NatStr(k)
  }

  lemma {:induction false} NatStrValue(n: nat)
    ensures DigitsValue(NatStr(n), 10) == n
    decreases n
  {
    if n >= 10 {
      NatStrValue(n / 10);
      var s := NatStr(n);
      assert s[..|s| - 1] == NatStr(n / 10);
    }
  }

  /** The numeral of an integer, as `parseFloat` reads `String(k)`. */
  function IntDecimal(k: int): Decimal {
    Decimal(k < 0, NatStr(if k < 0 then -k else k), "")
  }

  lemma IntDecimalCanonical(k: int)
    ensures Canonical(IntDecimal(k)) && Render(IntDecimal(k)) == IntStr(k)
    ensures Value(IntDecimal(k)) == k as real
  {
    var m := if k < 0 then -k else k;
    var u := NatStr(m);
    assert Canonical(IntDecimal(k)) by {
      if u == "0" {
        assert u[0] == '0';
      }
    }
    assert Render(IntDecimal(k)) == IntStr(k);
    assert Value(IntDecimal(k)) == k as real by {
      NatStrValue(m);
      WholeValue(u);
    }
  }

  lemma ParseIntOfIntStr(k: int)
    ensures ParseInt(IntStr(k), 10) == Some(k)
  {
    var m := if k < 0 then -k else k;
    NatStrRead(m);
    if k < 0 {
      SignedIntRead(NatStr(m));
    } else {
      UnsignedIntRead(NatStr(m));
    }
  }

  /** The digits of `n` are all read, and denote `n`. */
  lemma NatStrRead(n: nat)
    ensures var u := NatStr(n);
      && DigitRun(u, 10) == u && DigitsValue(u, 10) == n
      && !IsSpace(u[0]) && u[0] != '-' && u[0] != '+'
  {
    var u := NatStr(n);
    NatStrValue(n);
    assert DigitRun(u, 10) == u by {
      DigitRunStops(u, [], 10);
      assert u + [] == u;
    }
    assert DigitValue(u[0]) < 10;
  }

  /** A digit string read by `parseInt` in base 10. */
  lemma UnsignedIntRead(u: string)
    requires u != [] && !IsSpace(u[0]) && u[0] != '-' && u[0] != '+' && DigitRun(u, 10) == u
    ensures ParseInt(u, 10) == Some(DigitsValue(u, 10))
  {
    assert TrimStart(u) == u;
  }

  /** A minus sign and a digit string read by `parseInt` in base 10. */
  lemma SignedIntRead(u: string)
    requires u != [] && DigitRun(u, 10) == u
    ensures ParseInt("-" + u, 10) == Some(-(DigitsValue(u, 10) as int))
  {
    var s := "-" + u;
    assert TrimStart(s) == s by {
      assert !IsSpace(s[0]);
    }
    assert s[1..] == u;
  }

  /** An integer printed by `String` parses back, by `parseFloat` and by
      `parseInt(…, 10)`, to itself. */
  lemma IntStrRoundTrip(k: int)
    ensures ParseFloat(IntStr(k)) == Some(IntDecimal(k))
    ensures Value(IntDecimal(k)) == k as real
    ensures Print(IntDecimal(k)) == IntStr(k)
    ensures ParseInt(IntStr(k), 10) == Some(k)
    ensures Round(k as real) == k
  {
    IntDecimalCanonical(k);
    assert ParseFloat(IntStr(k)) == Some(IntDecimal(k)) by {
      ParseIntStrPrefix(k, "");
      assert IntStr(k) + "" == IntStr(k);
    }
    assert Print(IntDecimal(k)) == IntStr(k) by {
      CanonOfCanonical(IntDecimal(k));
    }
    ParseIntOfIntStr(k);
    RoundOfInt(k);
  }

  /** A character that ends a numeral: neither a decimal digit nor a point. */
  predicate EndsNumeral(rest: string) {
    rest == [] || (!IsDigitIn(rest[0], 10) && rest[0] != '.')
  }

  /** A digit run followed by something that ends a numeral reads as the run. */
  lemma EndsNumeralSlash(rest: string)
    ensures EndsNumeral("/" + rest)
  {
  }

  lemma ReadNumeralStops(negative: bool, w: string, rest: string)
    requires w != [] && AllDigits(w, 10) && EndsNumeral(rest)
    ensures ReadNumeral(negative, w + rest) == Some(Decimal(negative, w, ""))
  {
    DigitRunStops(w, rest, 10);
    assert (w + rest)[|w|..] == rest;
  }

  /** Without leading white space or sign, `parseFloat` reads a non-negative numeral. */
  lemma ParseFloatUnsigned(s: string)
    requires s != [] && !IsSpace(s[0]) && s[0] != '-' && s[0] != '+'
    ensures ParseFloat(s) == ReadNumeral(false, s)
  {
  }

  /** A leading `-` makes the numeral after it negative. */
  lemma ParseFloatNegative(s: string)
    requires s != [] && s[0] == '-'
    ensures ParseFloat(s) == ReadNumeral(true, s[1..])
  {
  }

  /** `parseFloat` reads a printed integer and stops at whatever follows it
      when that is not part of a numeral. */
  lemma ParseIntStrPrefix(k: int, rest: string)
    requires EndsNumeral(rest)
    ensures ParseFloat(IntStr(k) + rest) == Some(IntDecimal(k))
  {
    var u := NatStr(if k < 0 then -k else k);
    ReadNumeralStops(k < 0, u, rest);
    if k < 0 {
      SignedText(u, rest);
      SignedRead("-" + (u + rest), IntDecimal(k));
    } else {
      assert (u + rest)[0] == u[0] && IsDigitIn(u[0], 10);
      UnsignedRead(u + rest, IntDecimal(k));
    }
  }

  lemma SignedText(u: string, rest: string)
    ensures "-" + u + rest == "-" + (u + rest) && ("-" + (u + rest))[1..] == u + rest
  {
  }
}
