/**
 * The JavaScript string operations the normaliser, the controls and the
 * renderer are built from: `\s`, `toLowerCase`, `trim`, `replace` with a
 * global or a first-occurrence pattern, `split`, `slice` and `startsWith`.
 * Strings are sequences of Unicode scalar values: lengths and indices count
 * code points, where JavaScript counts UTF-16 code units.
 */
module JsString {

  /** JavaScript white space and line terminators: what `\s` matches and what
      `trim` and `parseFloat` skip. */
  predicate IsSpace(c: char) {
    || c == '\t' || c == '\n' || c == '\U{000B}' || c == '\U{000C}' || c == '\r' || c == ' '
    || c == '\U{00A0}' || c == '\U{1680}' || ('\U{2000}' <= c <= '\U{200A}')
    || c == '\U{2028}' || c == '\U{2029}' || c == '\U{202F}' || c == '\U{205F}'
    || c == '\U{3000}' || c == '\U{FEFF}'
  }

  predicate NoSpace(s: string) {
    forall i :: 0 <= i < |s| ==> !IsSpace(s[i])
  }

  predicate IsUpper(c: char) {
    'A' <= c <= 'Z'
  }

  predicate NoUpper(s: string) {
    forall i :: 0 <= i < |s| ==> !IsUpper(s[i])
  }

  /** `toLowerCase` on one character, restricted to the ASCII letters. */
  function LowerChar(c: char): (r: char)
    ensures !IsUpper(r)
  {
    if IsUpper(c) then (c as int + 32) as char else c
  }

  function Lower(s: string): (r: string)
    ensures |r| == |s| && NoUpper(r)
    ensures forall i :: 0 <= i < |s| ==> r[i] == LowerChar(s[i])
  {
    seq(|s|, i requires 0 <= i < |s| => LowerChar(s[i]))
  }

  lemma LowerOfLower(s: string)
    requires NoUpper(s)
    ensures Lower(s) == s
  {
  }

  lemma LowerConcat(a: string, b: string)
    ensures Lower(a + b) == Lower(a) + Lower(b)
  {
  }

  /** `trimStart`: drops the leading white space. */
  function TrimStart(s: string): (r: string)
    ensures |r| <= |s| && r == s[|s| - |r|..]
    ensures r == [] || !IsSpace(r[0])
  {
    if s != [] && IsSpace(s[0]) then TrimStart(s[1..]) else s
  }

  /** A leading space makes no difference to the trimmed text. */
  lemma TrimLeadingSpace(t: string)
    ensures Trim(" " + t) == Trim(t)
  {
    assert (" " + t)[1..] == t;
  }

  /** `trimEnd`: drops the trailing white space. */
  function TrimEnd(s: string): (r: string)
    ensures |r| <= |s| && r == s[..|r|]
    ensures r == [] || !IsSpace(r[|r| - 1])
  {
    if s != [] && IsSpace(s[|s| - 1]) then TrimEnd(s[..|s| - 1]) else s
  }

  /** `trim`. */
  function Trim(s: string): string {
    TrimEnd(TrimStart(s))
  }

  /** Neither end is white space. */
  predicate Trimmed(s: string) {
    s == [] || (!IsSpace(s[0]) && !IsSpace(s[|s| - 1]))
  }

  lemma TrimTrimmed(s: string)
    requires Trimmed(s)
    ensures Trim(s) == s
  {
  }

  lemma TrimNoSpace(s: string)
    requires NoSpace(s)
    ensures TrimStart(s) == s && Trim(s) == s
  {
  }

  /** Whether the window `w` equals the literal pattern, ignoring ASCII case when asked (the `i` flag). */
  predicate MatchesPattern(w: string, pat: string, ignoreCase: bool) {
    if ignoreCase then Lower(w) == Lower(pat) else w == pat
  }

  /** `s.replace(/pat/g, '')` (with `i` when `ignoreCase`): every leftmost
      non-overlapping occurrence of the literal `pat` removed. */
  function RemoveAll(s: string, pat: string, ignoreCase: bool): (r: string)
    requires |pat| > 0
    ensures |r| <= |s|
    decreases |s|
  {
    if |s| < |pat| then s
    else if MatchesPattern(s[..|pat|], pat, ignoreCase) then RemoveAll(s[|pat|..], pat, ignoreCase)
    else [s[0]] + RemoveAll(s[1..], pat, ignoreCase)
  }

  /** No character of `a` can start an occurrence of `pat`. */
  predicate CannotStart(a: string, pat: string, ignoreCase: bool)
    requires |pat| > 0
  {
    forall i :: 0 <= i < |a| ==>
      if ignoreCase then LowerChar(a[i]) != LowerChar(pat[0]) else a[i] != pat[0]
  }

  /** A first character that cannot start the pattern is kept. */
  lemma FirstKept(s: string, pat: string, ignoreCase: bool)
    requires |pat| > 0 && s != []
    requires if ignoreCase then LowerChar(s[0]) != LowerChar(pat[0]) else s[0] != pat[0]
    ensures RemoveAll(s, pat, ignoreCase) == [s[0]] + RemoveAll(s[1..], pat, ignoreCase)
  {
    if |s| >= |pat| {
      var w := s[..|pat|];
      assert w[0] == s[0];
      if ignoreCase {
        assert Lower(w)[0] == LowerChar(s[0]) && Lower(pat)[0] == LowerChar(pat[0]);
      }
      assert !MatchesPattern(w, pat, ignoreCase);
    } else {
      assert RemoveAll(s[1..], pat, ignoreCase) == s[1..];
      assert [s[0]] + s[1..] == s;
    }
  }

  lemma ConsAssoc(a: string, r: string)
    requires a != []
    ensures a + r == [a[0]] + (a[1..] + r)
  {
  }

  /** A prefix none of whose characters can start the pattern passes through unchanged. */
  lemma {:induction false} RemoveAllKeeps(a: string, b: string, pat: string, ignoreCase: bool)
    requires |pat| > 0 && CannotStart(a, pat, ignoreCase)
    ensures RemoveAll(a + b, pat, ignoreCase) == a + RemoveAll(b, pat, ignoreCase)
    decreases |a|
  {
    if a != [] {
      var s := a + b;
      assert s[1..] == a[1..] + b;
      RemoveAllKeeps(a[1..], b, pat, ignoreCase);
      assert s[0] == a[0];
      FirstKept(s, pat, ignoreCase);
      ConsAssoc(a, RemoveAll(b, pat, ignoreCase));
    } else {
      assert a + b == b;
    }
  }

  /** `s.replace(/\s+/g, '')`. */
  function RemoveSpaces(s: string): (r: string)
    ensures NoSpace(r) && |r| <= |s|
  {
    if s == [] then []
    else if IsSpace(s[0]) then RemoveSpaces(s[1..])
    else [s[0]] + RemoveSpaces(s[1..])
  }

  lemma {:induction false} RemoveSpacesNoSpace(s: string)
    requires NoSpace(s)
    ensures RemoveSpaces(s) == s
  {
    if s != [] {
      RemoveSpacesNoSpace(s[1..]);
    }
  }

  /** Every character of `w` is white space. */
  predicate AllSpace(w: string) {
    forall i :: 0 <= i < |w| ==> IsSpace(w[i])
  }

  /** `trimStart` drops exactly a leading run of white space. */
  lemma {:induction false} TrimStartOfRun(w: string, b: string)
    requires AllSpace(w) && (b == [] || !IsSpace(b[0]))
    ensures TrimStart(w + b) == b
    decreases |w|
  {
    if w != [] {
      assert (w + b)[1..] == w[1..] + b;
      TrimStartOfRun(w[1..], b);
    }
  }

  /** `s.replace(/\s+/g, sep)`: every maximal run of white space becomes one `sep`. */
  function ReplaceSpaceRuns(s: string, sep: char): string
    decreases |s|
  {
    if s == [] then []
    else if IsSpace(s[0]) then [sep] + ReplaceSpaceRuns(TrimStart(s), sep)
    else [s[0]] + ReplaceSpaceRuns(s[1..], sep)
  }

  /** The characters of `s` that are neither white space nor `sep`, in order. */
  function Visible(s: string, sep: char): string {
    if s == [] then []
    else (if IsSpace(s[0]) || s[0] == sep then [] else [s[0]]) + Visible(s[1..], sep)
  }

  lemma {:induction false} VisibleOfSpaces(s: string, sep: char)
    ensures Visible(TrimStart(s), sep) == Visible(s, sep)
    decreases |s|
  {
    if s != [] && IsSpace(s[0]) {
      VisibleOfSpaces(s[1..], sep);
    }
  }

  /** Replacing the runs leaves no white space, keeps every other character in
      order, and does nothing to a string without white space. */
  lemma {:induction false} ReplaceSpaceRunsSpec(s: string, sep: char)
    requires !IsSpace(sep)
    ensures NoSpace(ReplaceSpaceRuns(s, sep))
    ensures Visible(ReplaceSpaceRuns(s, sep), sep) == Visible(s, sep)
    ensures NoSpace(s) ==> ReplaceSpaceRuns(s, sep) == s
    decreases |s|
  {
    if s == [] {
    } else if IsSpace(s[0]) {
      var t := TrimStart(s);
      ReplaceSpaceRunsSpec(t, sep);
      VisibleOfSpaces(s, sep);
      assert ReplaceSpaceRuns(s, sep) == [sep] + ReplaceSpaceRuns(t, sep);
    } else {
      ReplaceSpaceRunsSpec(s[1..], sep);
      assert ReplaceSpaceRuns(s, sep) == [s[0]] + ReplaceSpaceRuns(s[1..], sep);
    }
  }

  /** A first character that is not white space is copied. */
  lemma ReplaceSpaceRunsCons(c: char, t: string, sep: char)
    requires !IsSpace(c)
    ensures ReplaceSpaceRuns([c] + t, sep) == [c] + ReplaceSpaceRuns(t, sep)
  {
    assert ([c] + t)[0] == c && ([c] + t)[1..] == t;
  }

  /** A leading run of white space becomes one `sep`. */
  lemma ReplaceSpaceRunsRun(w: string, b: string, sep: char)
    requires w != [] && AllSpace(w) && (b == [] || !IsSpace(b[0]))
    ensures ReplaceSpaceRuns(w + b, sep) == [sep] + ReplaceSpaceRuns(b, sep)
  {
    assert (w + b)[0] == w[0];
    TrimStartOfRun(w, b);
  }

  /** A prefix without white space is copied unchanged. */
  lemma {:induction false} ReplaceSpaceRunsPrefix(a: string, t: string, sep: char)
    requires NoSpace(a)
    ensures ReplaceSpaceRuns(a + t, sep) == a + ReplaceSpaceRuns(t, sep)
    decreases |a|
  {
    if a == [] {
      assert a + t == t;
    } else {
      var rest := a[1..];
      assert a + t == [a[0]] + (rest + t);
      ReplaceSpaceRunsCons(a[0], rest + t, sep);
      ReplaceSpaceRunsPrefix(rest, t, sep);
      assert a == [a[0]] + rest;
    }
  }

  /** One maximal run of white space between a word `a` and the rest `b`
      becomes exactly one `sep`, and the rest is replaced in turn. */
  lemma ReplaceSpaceRunsSplice(a: string, w: string, b: string, sep: char)
    requires NoSpace(a) && w != [] && AllSpace(w) && (b == [] || !IsSpace(b[0]))
    ensures ReplaceSpaceRuns(a + w + b, sep) == a + [sep] + ReplaceSpaceRuns(b, sep)
  {
    assert a + w + b == a + (w + b);
    ReplaceSpaceRunsPrefix(a, w + b, sep);
    ReplaceSpaceRunsRun(w, b, sep);
  }


  /** `indexOf` for one character: -1 when absent. */
  function IndexOf(s: string, c: char): (i: int)
    ensures -1 <= i < |s|
    ensures i == -1 ==> c !in s
    ensures 0 <= i ==> s[i] == c && c !in s[..i]
  {
    if s == [] then -1
    else if s[0] == c then 0
    else
      var j := IndexOf(s[1..], c);
      if j < 0 then -1 else j + 1
  }

  /** `s.split(sep)` for a one-code-unit separator. */
  function Split(s: string, sep: char): (parts: seq<string>)
    ensures |parts| >= 1
    ensures sep in s <==> |parts| >= 2
    decreases |s|
  {
    var i := IndexOf(s, sep);
    if i < 0 then [s] else [s[..i]] + Split(s[i + 1..], sep)
  }

  /** `parts.join(sep)`. */
  function Join(parts: seq<string>, sep: string): string {
    if parts == [] then []
    else if |parts| == 1 then parts[0]
    else parts[0] + sep + Join(parts[1..], sep)
  }

  /** Splitting loses nothing: joining the pieces back gives the string. */
  lemma {:induction false} SplitJoin(s: string, sep: char)
    ensures Join(Split(s, sep), [sep]) == s
    decreases |s|
  {
    var i := IndexOf(s, sep);
    if i >= 0 {
      var a, t := s[..i], s[i + 1..];
      SplitJoin(t, sep);
      JoinCons(a, Split(t, sep), [sep]);
      assert s == a + [sep] + t;
    }
  }

  /** No piece of a split holds the separator. */
  lemma {:induction false} SplitPartsClean(s: string, sep: char)
    ensures forall k :: 0 <= k < |Split(s, sep)| ==> sep !in Split(s, sep)[k]
    decreases |s|
  {
    var i := IndexOf(s, sep);
    if i >= 0 {
      var t := s[i + 1..];
      SplitPartsClean(t, sep);
      var parts := Split(s, sep);
      forall k | 0 <= k < |parts| ensures sep !in parts[k] {
        if k > 0 {
          assert parts[k] == Split(t, sep)[k - 1];
        }
      }
    }
  }

  lemma JoinCons(a: string, rest: seq<string>, sep: string)
    requires |rest| >= 1
    ensures Join([a] + rest, sep) == a + sep + Join(rest, sep)
  {
    assert ([a] + rest)[1..] == rest;
  }

  /** A character absent from the string is absent from every piece. */
  lemma {:induction false} SplitPartsAvoid(s: string, sep: char, c: char)
    requires c !in s
    ensures forall k :: 0 <= k < |Split(s, sep)| ==> c !in Split(s, sep)[k]
    decreases |s|
  {
    var i := IndexOf(s, sep);
    if i >= 0 {
      SplitPartsAvoid(s[i + 1..], sep, c);
      assert c !in s[..i];
    }
  }

  /** The first separator after a separator-free prefix is found right after it. */
  lemma {:induction false} IndexOfAfter(a: string, c: char, b: string)
    requires c !in a
    ensures IndexOf(a + [c] + b, c) == |a|
    decreases |a|
  {
    if a != [] {
      assert (a + [c] + b)[1..] == a[1..] + [c] + b;
      IndexOfAfter(a[1..], c, b);
    }
  }

  /** Splitting peels off a separator-free prefix as the first piece. */
  lemma SplitCons(a: string, sep: char, b: string)
    requires sep !in a
    ensures Split(a + [sep] + b, sep) == [a] + Split(b, sep)
  {
    var s := a + [sep] + b;
    IndexOfAfter(a, sep, b);
    assert s[..|a|] == a && s[|a| + 1..] == b;
  }

  lemma SplitNoSeparator(s: string, sep: char)
    requires sep !in s
    ensures Split(s, sep) == [s]
  {
  }

  /** `s.replace(c, '')` with a string pattern: only the first occurrence goes. */
  function RemoveFirst(s: string, c: char): (r: string)
    ensures c !in s ==> r == s
    ensures c in s ==> |r| == |s| - 1
  {
    var i := IndexOf(s, c);
    if i < 0 then s else s[..i] + s[i + 1..]
  }

  /** `s.slice(i, j)` for non-negative bounds: both are clamped to the length. */
  function Slice(s: string, i: nat, j: nat): (r: string)
    ensures |r| <= |s|
    ensures i <= j <= |s| ==> r == s[i..j]
  {
    var a := if i <= |s| then i else |s|;
    var b := if j <= |s| then j else |s|;
    if b <= a then [] else s[a..b]
  }

  /** `s.startsWith(p)`. */
  predicate StartsWith(s: string, p: string) {
    |p| <= |s| && s[..|p|] == p
  }
}
