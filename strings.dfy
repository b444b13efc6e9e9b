/**
 * The Python `str` operations that the Jira parser relies on: `strip()` and
 * `strip(chars)`, `lower()`, substring search (`in`, `re.search`, `re.split`
 * with a literal, case-insensitive pattern), `startswith`, `splitlines()` and
 * `sep.join(...)`. Strings are sequences of Unicode scalar values.
 */
module Strings {
  import opened Options

  /** The characters for which Python's `str.isspace()` holds; `str.strip()` with
    * no argument removes exactly these from both ends. */
  const Whitespace: set<char> := {
    '\t', '\n', '\U{000B}', '\U{000C}', '\r', '\U{001C}', '\U{001D}', '\U{001E}', '\U{001F}', ' ',
    '\U{0085}', '\U{00A0}', '\U{1680}',
    '\U{2000}', '\U{2001}', '\U{2002}', '\U{2003}', '\U{2004}', '\U{2005}', '\U{2006}', '\U{2007}',
    '\U{2008}', '\U{2009}', '\U{200A}', '\U{2028}', '\U{2029}', '\U{202F}', '\U{205F}', '\U{3000}'
  }

  /** The line boundaries recognised by Python's `str.splitlines()` (`"\r\n"` counts as one). */
  const LineBreaks: set<char> := {
    '\n', '\r', '\U{000B}', '\U{000C}', '\U{001C}', '\U{001D}', '\U{001E}', '\U{0085}', '\U{2028}', '\U{2029}'
  }

  // ---------------------------------------------------------------------------
  // strip

  /** Neither end of `s` is a character of `cs`. */
  predicate IsStrippedOf(s: string, cs: set<char>) {
    |s| == 0 || (s[0] !in cs && s[|s| - 1] !in cs)
  }

  /** `s` has no leading or trailing whitespace. */
  predicate IsStripped(s: string) {
    IsStrippedOf(s, Whitespace)
  }

  /** Every character of `s` is in `cs`. */
  predicate AllIn(s: string, cs: set<char>) {
    forall i :: 0 <= i < |s| ==> s[i] in cs
  }

  /** `s.strip(cs)`: `s` with every leading and trailing character of `cs` removed. */
  function StripChars(s: string, cs: set<char>): (r: string)
    ensures IsStrippedOf(r, cs)
    ensures |r| <= |s|
    decreases |s|
  {
    if |s| > 0 && s[0] in cs then StripChars(s[1..], cs)
    else if |s| > 0 && s[|s| - 1] in cs then StripChars(s[..|s| - 1], cs)
    else s
  }

  /** `s.strip()` */
  function Strip(s: string): string {
    StripChars(s, Whitespace)
  }

  /** What stripping removes: the result is the slice of `s` starting at the returned
    * index, and every character before and after that slice is in `cs`. */
  lemma {:induction false} StripCharsSlice(s: string, cs: set<char>) returns (k: nat)
    ensures var r := StripChars(s, cs); k + |r| <= |s| && r == s[k..k + |r|]
    ensures forall i :: 0 <= i < k ==> s[i] in cs
    ensures forall i :: k + |StripChars(s, cs)| <= i < |s| ==> s[i] in cs
    decreases |s|
  {
    var r := StripChars(s, cs);
    if |s| > 0 && s[0] in cs {
      var k' := StripCharsSlice(s[1..], cs);
      k := k' + 1;
      assert s[1..][k'..k' + |r|] == s[k..k + |r|];
    } else if |s| > 0 && s[|s| - 1] in cs {
      var t := s[..|s| - 1];
      k := StripCharsSlice(t, cs);
      assert t[k..k + |r|] == s[k..k + |r|];
    } else {
      k := 0;
    }
  }

  /** A slice of a slice is a slice; what lies outside it is outside one of the two. */
  lemma SliceOfSlice(s: string, m: string, r: string, k1: nat, k2: nat, cs1: set<char>, cs2: set<char>)
    requires k1 + |m| <= |s| && m == s[k1..k1 + |m|]
    requires k2 + |r| <= |m| && r == m[k2..k2 + |r|]
    requires forall i :: 0 <= i < k1 ==> s[i] in cs1
    requires forall i :: k1 + |m| <= i < |s| ==> s[i] in cs1
    requires forall i :: 0 <= i < k2 ==> m[i] in cs2
    requires forall i :: k2 + |r| <= i < |m| ==> m[i] in cs2
    ensures r == s[k1 + k2..k1 + k2 + |r|]
    ensures forall i :: 0 <= i < k1 + k2 ==> s[i] in cs1 + cs2
    ensures forall i :: k1 + k2 + |r| <= i < |s| ==> s[i] in cs1 + cs2
  {
    forall i | 0 <= i < |m|
      ensures m[i] == s[k1 + i]
    {
    }
    forall i | 0 <= i < |r|
      ensures r[i] == s[k1 + k2 + i]
    {
      assert r[i] == m[k2 + i];
    }
  }

  /** Conversely, stripping removes all of the characters of `cs` around a core that
    * neither starts nor ends with one, and nothing of the core. */
  lemma {:induction false} StripCharsAround(v: string, s: string, w: string, cs: set<char>)
    requires IsStrippedOf(s, cs) && AllIn(v, cs) && AllIn(w, cs)
    ensures StripChars(v + s + w, cs) == s
    decreases |v| + |w|
  {
    var x := v + s + w;
    if v != [] {
      assert x[0] == v[0];
      assert x[1..] == v[1..] + s + w;
      StripCharsAround(v[1..], s, w, cs);
    } else if w != [] {
      if s == [] {
        assert x == w;
        assert x[1..] == v + s + w[1..];
        StripCharsAround(v, s, w[1..], cs);
      } else {
        assert x[0] == s[0];
        assert x[..|x| - 1] == v + s + w[..|w| - 1];
        StripCharsAround(v, s, w[..|w| - 1], cs);
      }
    } else {
      assert x == s;
    }
  }

  /** Stripping a string that is already stripped changes nothing. */
  lemma StripStripped(s: string, cs: set<char>)
    requires IsStrippedOf(s, cs)
    ensures StripChars(s, cs) == s
  {
  }

  /** Whitespace added at the end of a stripped string is removed again. */
  lemma StripTrailing(s: string, w: string)
    requires IsStripped(s) && AllIn(w, Whitespace)
    ensures Strip(s + w) == s
  {
    assert [] + s + w == s + w;
    StripCharsAround([], s, w, Whitespace);
  }

  /** Characters of `cs` added at the front are stripped away again. */
  lemma {:induction false} StripCharsPrefix(v: string, s: string, cs: set<char>)
    requires AllIn(v, cs)
    ensures StripChars(v + s, cs) == StripChars(s, cs)
    decreases |v|
  {
    if v == [] {
      assert v + s == s;
    } else {
      assert (v + s)[0] == v[0];
      assert (v + s)[1..] == v[1..] + s;
      StripCharsPrefix(v[1..], s, cs);
    }
  }

  /** Characters of `cs` added at the back are stripped away again. */
  lemma {:induction false} StripCharsSuffix(s: string, w: string, cs: set<char>)
    requires AllIn(w, cs)
    ensures StripChars(s + w, cs) == StripChars(s, cs)
    decreases |s| + |w|
  {
    var x := s + w;
    if w == [] {
      assert x == s;
    } else if s == [] {
      assert x == w;
      assert w[1..] == [] + w[1..];
      StripCharsSuffix([], w[1..], cs);
    } else if s[0] in cs {
      assert x[0] == s[0];
      assert x[1..] == s[1..] + w;
      StripCharsSuffix(s[1..], w, cs);
    } else {
      assert x[0] == s[0];
      assert x[|x| - 1] == w[|w| - 1];
      assert x[..|x| - 1] == s + w[..|w| - 1];
      StripCharsSuffix(s, w[..|w| - 1], cs);
    }
  }

  /** Stripping ignores any padding of characters of `cs` around the string. */
  lemma StripCharsPad(v: string, s: string, w: string, cs: set<char>)
    requires AllIn(v, cs) && AllIn(w, cs)
    ensures StripChars(v + s + w, cs) == StripChars(s, cs)
  {
    assert v + s + w == v + (s + w);
    StripCharsPrefix(v, s + w, cs);
    StripCharsSuffix(s, w, cs);
  }

  // ---------------------------------------------------------------------------
  // lower-casing and substring search

  /** ASCII lower-casing of one character. */
  function LowerChar(c: char): char {
    if 'A' <= c <= 'Z' then (c as int + 32) as char else c
  }

  /** `s.lower()`, restricted to the ASCII letters. */
  function Lower(s: string): (r: string)
    ensures |r| == |s|
    decreases |s|
  {
    if s == [] then [] else [LowerChar(s[0])] + Lower(s[1..])
  }

  /** Lower-casing works character by character. */
  lemma {:induction false} LowerAt(s: string, i: nat)
    requires i < |s|
    ensures Lower(s)[i] == LowerChar(s[i])
    decreases |s|
  {
    if i > 0 {
      LowerAt(s[1..], i - 1);
    }
  }

  /** Lower-casing commutes with taking a slice. */
  lemma {:induction false} LowerSlice(s: string, a: nat, b: nat)
    requires a <= b <= |s|
    ensures Lower(s[a..b]) == Lower(s)[a..b]
  {
    var l := Lower(s);
    forall i | 0 <= i < b - a
      ensures Lower(s[a..b])[i] == l[a + i]
    {
      LowerAt(s[a..b], i);
      LowerAt(s, a + i);
    }
    assert forall i :: 0 <= i < b - a ==> l[a..b][i] == l[a + i];
  }

  /** Lower-casing leaves whitespace where it is, so a stripped string stays stripped. */
  lemma LowerStripped(s: string)
    requires IsStripped(s)
    ensures IsStripped(Lower(s))
  {
    if s != [] {
      LowerAt(s, 0);
      LowerAt(s, |s| - 1);
    }
  }

  /** Lower-casing twice is lower-casing once. */
  lemma {:induction false} LowerIdempotent(s: string)
    ensures Lower(Lower(s)) == Lower(s)
    decreases |s|
  {
    if s != [] {
      assert Lower(s)[1..] == Lower(s[1..]);
      LowerIdempotent(s[1..]);
    }
  }

  /** `pat` occurs in `s` at index `i`. */
  predicate MatchAt(s: string, pat: string, i: int) {
    0 <= i && i + |pat| <= |s| && s[i..i + |pat|] == pat
  }

  /** The first index at or after `k` where `pat` occurs in `s`. */
  function FindFrom(s: string, pat: string, k: nat): (r: Option<nat>)
    ensures r.Some? ==> k <= r.value && r.value + |pat| <= |s|
    decreases |s| - k
  {
    if k + |pat| > |s| then None
    else if s[k..k + |pat|] == pat then Some(k)
    else FindFrom(s, pat, k + 1)
  }

  /** `s.find(pat)`, with `None` for Python's -1. */
  function Find(s: string, pat: string): (r: Option<nat>)
    ensures r.Some? ==> r.value + |pat| <= |s|
  {
    FindFrom(s, pat, 0)
  }

  /** `FindFrom` finds the first occurrence at or after `k`, and `None` means there is none. */
  lemma {:induction false} FindFromFirst(s: string, pat: string, k: nat)
    ensures var r := FindFrom(s, pat, k);
      && (r.Some? ==> k <= r.value && MatchAt(s, pat, r.value))
      && (r.Some? ==> forall j :: k <= j < r.value ==> !MatchAt(s, pat, j))
      && (r.None? ==> forall j :: k <= j ==> !MatchAt(s, pat, j))
    decreases |s| - k
  {
    if k + |pat| <= |s| && s[k..k + |pat|] != pat {
      FindFromFirst(s, pat, k + 1);
    }
  }

  /** `Find` returns the first occurrence, and `None` exactly when there is none. */
  lemma FindFirst(s: string, pat: string)
    ensures var r := Find(s, pat);
      && (r.Some? ==> MatchAt(s, pat, r.value) && forall j :: 0 <= j < r.value ==> !MatchAt(s, pat, j))
      && (r.None? <==> forall j :: !MatchAt(s, pat, j))
  {
    FindFromFirst(s, pat, 0);
  }

  /** `pat in s` */
  predicate Contains(s: string, pat: string) {
    Find(s, pat).Some?
  }

  /** `re.search("(?i)" + pat, s)` for a lower-case literal `pat`. */
  predicate ContainsCI(s: string, pat: string) {
    Contains(Lower(s), pat)
  }

  /** An occurrence inside a slice is an occurrence in the whole string. */
  lemma MatchInSlice(s: string, pat: string, a: nat, b: nat, i: int)
    requires a <= b <= |s| && MatchAt(s[a..b], pat, i)
    ensures MatchAt(s, pat, a + i)
  {
    var n := |pat|;
    assert 0 <= i && i + n <= b - a;
    assert forall k :: 0 <= k < n ==> pat[k] == s[a..b][i + k];
    assert forall k :: 0 <= k < n ==> pat[k] == s[a + i..a + i + n][k];
  }

  /** A slice of a string that does not mention `pat` (case-insensitively) does not either. */
  lemma NotContainsCISlice(s: string, pat: string, a: nat, b: nat)
    requires a <= b <= |s| && !ContainsCI(s, pat)
    ensures !ContainsCI(s[a..b], pat)
  {
    LowerSlice(s, a, b);
    FindFirst(Lower(s), pat);
    FindFirst(Lower(s[a..b]), pat);
    if ContainsCI(s[a..b], pat) {
      var i := Find(Lower(s[a..b]), pat).value;
      MatchInSlice(Lower(s), pat, a, b, i);
      assert false;
    }
  }

  /** Stripping cannot create an occurrence of `pat`. */
  lemma NotContainsCIStrip(s: string, cs: set<char>, pat: string)
    requires !ContainsCI(s, pat)
    ensures !ContainsCI(StripChars(s, cs), pat)
  {
    var k := StripCharsSlice(s, cs);
    NotContainsCISlice(s, pat, k, k + |StripChars(s, cs)|);
  }

  /** Lower-casing leaves every whitespace character unchanged. */
  lemma LowerKeepsWhitespace()
    ensures forall c :: c in Whitespace ==> LowerChar(c) == c
  {
  }

  /** An occurrence begins with the pattern's first character and ends with its last. */
  lemma MatchAtEnds(s: string, pat: string, i: int)
    requires pat != [] && MatchAt(s, pat, i)
    ensures s[i] == pat[0] && s[i + |pat| - 1] == pat[|pat| - 1]
  {
    assert s[i..i + |pat|][0] == s[i];
    assert s[i..i + |pat|][|pat| - 1] == s[i + |pat| - 1];
  }

  /** A character that does not lower-case into `ws`, a set that lower-casing leaves
    * alone, lies inside any slice around which there are only characters of `ws`. */
  lemma InsidePad(s: string, a: nat, b: nat, j: int, ws: set<char>)
    requires forall c :: c in ws ==> LowerChar(c) == c
    requires a <= b <= |s| && 0 <= j < |s|
    requires forall k :: 0 <= k < a ==> s[k] in ws
    requires forall k :: b <= k < |s| ==> s[k] in ws
    requires Lower(s)[j] !in ws
    ensures a <= j < b
  {
    LowerAt(s, j);
  }

  /** An occurrence inside the bounds of a slice is an occurrence in the slice. */
  lemma MatchInSliceBack(s: string, pat: string, a: nat, b: nat, i: int)
    requires a <= i && i + |pat| <= b <= |s| && MatchAt(s, pat, i)
    ensures MatchAt(s[a..b], pat, i - a)
  {
    forall k | 0 <= k < |pat|
      ensures s[a..b][i - a..i - a + |pat|][k] == pat[k]
    {
      assert s[i..i + |pat|][k] == s[i + k];
    }
  }

  /** Whitespace around a slice cannot take part in an occurrence of a pattern that
    * neither starts nor ends with whitespace: the slice mentions it exactly when the
    * whole string does. */
  lemma ContainsCIPadded(s: string, a: nat, b: nat, pat: string)
    requires a <= b <= |s|
    requires forall k :: 0 <= k < a ==> s[k] in Whitespace
    requires forall k :: b <= k < |s| ==> s[k] in Whitespace
    requires pat != [] && pat[0] !in Whitespace && pat[|pat| - 1] !in Whitespace
    ensures ContainsCI(s[a..b], pat) <==> ContainsCI(s, pat)
  {
    if ContainsCI(s, pat) {
      var l := Lower(s);
      FindFirst(l, pat);
      var i := Find(l, pat).value;
      MatchAtEnds(l, pat, i);
      LowerKeepsWhitespace();
      InsidePad(s, a, b, i, Whitespace);
      InsidePad(s, a, b, i + |pat| - 1, Whitespace);
      LowerSlice(s, a, b);
      MatchInSliceBack(l, pat, a, b, i);
      FindFirst(Lower(s[a..b]), pat);
    } else {
      NotContainsCISlice(s, pat, a, b);
    }
  }

  /** `s.startswith(p)` */
  predicate StartsWith(s: string, p: string) {
    |p| <= |s| && s[..|p|] == p
  }

  // ---------------------------------------------------------------------------
  // splitlines and join

  /** No character of `s` is a line boundary. */
  predicate IsOneLine(s: string) {
    forall i :: 0 <= i < |s| ==> s[i] !in LineBreaks
  }

  /** The index of the first line boundary at or after `k`, or `|s|`. */
  function NextBreak(s: string, k: nat): (r: nat)
    requires k <= |s|
    ensures k <= r <= |s|
    ensures r < |s| ==> s[r] in LineBreaks
    ensures forall i :: k <= i < r ==> s[i] !in LineBreaks
    decreases |s| - k
  {
    if k == |s| || s[k] in LineBreaks then k else NextBreak(s, k + 1)
  }

  /** `s.splitlines()`: the lines of `s` without their boundaries; `"\r\n"` ends one line,
    * and a boundary at the very end does not start an empty last line. */
  function SplitLines(s: string): (lines: seq<string>)
    ensures forall j :: 0 <= j < |lines| ==> IsOneLine(lines[j])
    ensures s != [] && IsOneLine(s) ==> lines == [s]
    ensures s == [] ==> lines == []
    decreases |s|
  {
    if s == [] then []
    else
      var i := NextBreak(s, 0);
      if i == |s| then [s]
      else
        var next := if s[i] == '\r' && i + 1 < |s| && s[i + 1] == '\n' then i + 2 else i + 1;
        [s[..i]] + SplitLines(s[next..])
  }

  /** `sep.join(xs)` */
  function Join(sep: string, xs: seq<string>): (r: string)
    decreases |xs|
  {
    if |xs| == 0 then ""
    else if |xs| == 1 then xs[0]
    else xs[0] + sep + Join(sep, xs[1..])
  }

  /** Joining non-empty stripped pieces gives a stripped string, so a further `strip()`
    * is a no-op. */
  lemma {:induction false} JoinStripped(sep: string, xs: seq<string>)
    requires forall j :: 0 <= j < |xs| ==> xs[j] != "" && IsStripped(xs[j])
    ensures IsStripped(Join(sep, xs))
    ensures |xs| > 0 ==> |Join(sep, xs)| > 0 && Join(sep, xs)[0] == xs[0][0]
    ensures |xs| > 0 ==> var r := Join(sep, xs); var l := xs[|xs| - 1]; |r| > 0 && r[|r| - 1] == l[|l| - 1]
    decreases |xs|
  {
    if |xs| > 1 {
      JoinStripped(sep, xs[1..]);
      var rest := Join(sep, xs[1..]);
      assert Join(sep, xs) == xs[0] + sep + rest;
      assert xs[1..][|xs[1..]| - 1] == xs[|xs| - 1];
    }
  }

  /** The first piece of a join is a prefix of it. */
  lemma JoinPrefix(sep: string, xs: seq<string>)
    requires |xs| > 0
    ensures xs[0] <= Join(sep, xs)
  {
    if |xs| > 1 {
      assert Join(sep, xs) == xs[0] + (sep + Join(sep, xs[1..]));
    }
  }

  /** One step of `splitlines()`: a line ended by a single boundary character, then the
    * lines of the rest. */
  lemma SplitLinesStep(x: string, b: char, rest: string)
    requires IsOneLine(x) && b in LineBreaks
    requires !(b == '\r' && |rest| > 0 && rest[0] == '\n')
    ensures SplitLines(x + [b] + rest) == [x] + SplitLines(rest)
  {
    var s := x + [b] + rest;
    assert s[|x|] == b;
    assert forall k :: 0 <= k < |x| ==> s[k] == x[k];
    assert NextBreak(s, 0) == |x|;
    assert s[..|x|] == x;
    assert s[|x| + 1..] == rest;
  }

  /** One step of `splitlines()` over `"\r\n"`: the pair ends one line. */
  lemma SplitLinesCRLF(x: string, rest: string)
    requires IsOneLine(x)
    ensures SplitLines(x + "\r\n" + rest) == [x] + SplitLines(rest)
  {
    var s := x + "\r\n" + rest;
    assert s[|x|] == '\r' && s[|x| + 1] == '\n';
    assert forall k :: 0 <= k < |x| ==> s[k] == x[k];
    assert NextBreak(s, 0) == |x|;
    assert s[..|x|] == x;
    assert s[|x| + 2..] == rest;
  }

  /** Splitting a newline join of one-line pieces gives the pieces back, empty pieces
    * included, unless the last piece is empty (a final boundary starts no line). */
  lemma {:induction false} SplitJoin(xs: seq<string>)
    requires forall j :: 0 <= j < |xs| ==> IsOneLine(xs[j])
    requires xs == [] || xs[|xs| - 1] != ""
    ensures SplitLines(Join("\n", xs)) == xs
    decreases |xs|
  {
    if |xs| > 1 {
      var rest := Join("\n", xs[1..]);
      assert Join("\n", xs) == xs[0] + ['\n'] + rest;
      SplitLinesStep(xs[0], '\n', rest);
      SplitJoin(xs[1..]);
      assert xs == [xs[0]] + xs[1..];
    }
  }
}
