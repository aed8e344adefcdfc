/** The few Kotlin string operations the provider uses, over strings modelled
    as sequences of Unicode scalar values (`seq<char>`): `trim()`,
    `indexOf`/`contains` (with and without `ignoreCase`) and
    `substringBefore`. */
module Text {

  import opened Wrappers

  /** Kotlin's `Char.isWhitespace()` on the JVM: `Character.isWhitespace` or
      `Character.isSpaceChar`, i.e. the control characters U+0009..U+000D and
      U+001C..U+001F together with the Unicode space, line and paragraph
      separators. */
  predicate IsWhitespace(c: char) {
    || ('\t' <= c <= '\r')
    || ('\U{001C}' <= c <= '\U{001F}')
    || c == ' ' || c == '\U{00A0}' || c == '\U{1680}'
    || ('\U{2000}' <= c <= '\U{200A}')
    || c == '\U{2028}' || c == '\U{2029}' || c == '\U{202F}'
    || c == '\U{205F}' || c == '\U{3000}'
  }

  predicate AllWhitespace(s: string) {
    forall k :: 0 <= k < |s| ==> IsWhitespace(s[k])
  }

  /** A string that `trim()` leaves alone: empty, or bounded by non-whitespace. */
  predicate IsTrimmed(s: string) {
    |s| == 0 || (!IsWhitespace(s[0]) && !IsWhitespace(s[|s| - 1]))
  }

  /** `t` occurs in `s` at index `lo`. */
  predicate SliceAt(s: string, lo: int, t: string) {
    0 <= lo && lo + |t| <= |s| && s[lo..lo + |t|] == t
  }

  /** `t` occurs in `s` at index `lo`, with nothing but whitespace around it. */
  predicate CoreAt(s: string, lo: int, t: string) {
    SliceAt(s, lo, t) && AllWhitespace(s[..lo]) && AllWhitespace(s[lo + |t|..])
  }

  /** Drops the leading whitespace. */
  function TrimStart(s: string): (r: string)
    ensures |r| <= |s| && r == s[|s| - |r|..]
    ensures AllWhitespace(s[..|s| - |r|])
    ensures |r| == 0 || !IsWhitespace(r[0])
  {
    if |s| > 0 && IsWhitespace(s[0]) then TrimStart(s[1..]) else s
  }

  /** Drops the trailing whitespace. */
  function TrimEnd(s: string): (r: string)
    ensures |r| <= |s| && r == s[..|r|]
    ensures AllWhitespace(s[|r|..])
    ensures |r| == 0 || !IsWhitespace(r[|r| - 1])
  {
    if |s| > 0 && IsWhitespace(s[|s| - 1]) then TrimEnd(s[..|s| - 1]) else s
  }

  /** Kotlin's `String.trim()`: the string without its leading and trailing
      whitespace. The result is a slice of `s` whose surroundings are all
      whitespace, and it starts and ends with a non-whitespace character. */
  function Trim(s: string): (r: string)
    ensures IsTrimmed(r)
    ensures exists lo :: CoreAt(s, lo, r)
  {
    var t := TrimStart(s);
    var r := TrimEnd(t);
    TrimCore(s, t, r);
    assert |r| > 0 ==> r[0] == t[0];
    r
  }

  /** A prefix `r` of a suffix `t` of `s`, each cut off only whitespace, is a
      core of `s`. */
  lemma TrimCore(s: string, t: string, r: string)
    requires |t| <= |s| && t == s[|s| - |t|..] && AllWhitespace(s[..|s| - |t|])
    requires |r| <= |t| && r == t[..|r|] && AllWhitespace(t[|r|..])
    ensures CoreAt(s, |s| - |t|, r)
  {
    var lo := |s| - |t|;
    assert s[lo..lo + |r|] == r;
    assert s[lo + |r|..] == t[|r|..];
  }

  /** The string seen as `p + r + q` with whitespace-only `p` and `q` and a
      trimmed `r` is trimmed to exactly `r`: whatever way the whitespace is
      split off, `Trim` finds the same core. */
  lemma {:induction false} TrimUnique(p: string, r: string, q: string)
    requires AllWhitespace(p) && AllWhitespace(q) && IsTrimmed(r)
    ensures Trim(p + r + q) == r
  {
    if |r| == 0 {
      assert p + r == p;
      TrimBlank(p, q);
    } else {
      var s := p + r + q;
      TrimIsBothEnds(s);
      assert (r + q)[0] == r[0];
      assert s == p + (r + q);
      TrimStartSkips(p, r + q);
      TrimEndSkips(r, q);
    }
  }

  /** Whitespace alone trims to the empty string. */
  lemma TrimBlank(p: string, q: string)
    requires AllWhitespace(p) && AllWhitespace(q)
    ensures Trim(p + q) == []
  {
    AllWhitespaceAppend(p, q);
    TrimStartAllWhitespace(p + q);
    TrimIsBothEnds(p + q);
  }

  lemma TrimIsBothEnds(s: string)
    ensures Trim(s) == TrimEnd(TrimStart(s))
  {
  }

  lemma AllWhitespaceAppend(p: string, q: string)
    requires AllWhitespace(p) && AllWhitespace(q)
    ensures AllWhitespace(p + q)
  {
    assert forall k :: 0 <= k < |p + q| ==> (p + q)[k] == if k < |p| then p[k] else q[k - |p|];
  }

  /** A whitespace-only string trims to the empty string. */
  lemma TrimStartAllWhitespace(s: string)
    requires AllWhitespace(s)
    ensures TrimStart(s) == []
  {
  }

  lemma {:induction false} TrimStartSkips(p: string, t: string)
    requires AllWhitespace(p)
    requires |t| == 0 || !IsWhitespace(t[0])
    ensures TrimStart(p + t) == t
    decreases |p|
  {
    if |p| > 0 {
      assert (p + t)[1..] == p[1..] + t;
      TrimStartSkips(p[1..], t);
    } else {
      assert p + t == t;
    }
  }

  lemma {:induction false} TrimEndSkips(r: string, q: string)
    requires AllWhitespace(q)
    requires |r| == 0 || !IsWhitespace(r[|r| - 1])
    ensures TrimEnd(r + q) == r
    decreases |q|
  {
    if |q| > 0 {
      assert (r + q)[..|r + q| - 1] == r + q[..|q| - 1];
      TrimEndSkips(r, q[..|q| - 1]);
    } else {
      assert r + q == r;
    }
  }

  /** `trim()` is idempotent. */
  lemma TrimIdempotent(s: string)
    ensures Trim(Trim(s)) == Trim(s)
  {
    var r := Trim(s);
    assert r == [] + r + [];
    TrimUnique([], r, []);
  }

  // ---------------------------------------------------------------------
  // Case mapping, restricted to what a comparison against ASCII text needs

  /** `Character.toUpperCase`, exact on every character whose upper case is an
      ASCII letter (the ASCII letters, dotless i and long s); other characters
      are returned unchanged. */
  function UpperCase(c: char): char {
    if 'a' <= c <= 'z' then (c as int - 32) as char
    else if c == '\U{0131}' then 'I'
    else if c == '\U{017F}' then 'S'
    else c
  }

  /** `Character.toLowerCase`, exact on every character whose lower case is an
      ASCII letter (the ASCII letters, dotted capital I and the Kelvin sign);
      other characters are returned unchanged. */
  function LowerCase(c: char): char {
    if 'A' <= c <= 'Z' then (c as int + 32) as char
    else if c == '\U{0130}' then 'i'
    else if c == '\U{212A}' then 'k'
    else c
  }

  /** Kotlin's `Char.equals(other, ignoreCase)`: equal, or equal after upper
      casing, or equal after upper and then lower casing. Exact whenever one of
      the two characters is ASCII. */
  predicate CharEquals(a: char, b: char, ignoreCase: bool): (r: bool)
    ensures a == b ==> r
    ensures !ignoreCase ==> (r <==> a == b)
    ensures ignoreCase && 'a' <= a <= 'z' && b as int == a as int - 32 ==> r
    ensures a as int < 128 && b as int < 128 ==>
              (r <==> if ignoreCase then LowerCase(a) == LowerCase(b) else a == b)
  {
    || a == b
    || (ignoreCase && (UpperCase(a) == UpperCase(b)
                       || LowerCase(UpperCase(a)) == LowerCase(UpperCase(b))))
  }

  /** `needle` occurs in `s` starting at index `i`. */
  predicate RegionMatches(s: string, i: int, needle: string, ignoreCase: bool) {
    0 <= i && i + |needle| <= |s|
    && forall k :: 0 <= k < |needle| ==> CharEquals(s[i + k], needle[k], ignoreCase)
  }

  /** Kotlin's `indexOf(needle, from, ignoreCase)`: the first index at or
      after `from` where `needle` occurs, or `None` when there is none. */
  function IndexOf(s: string, needle: string, ignoreCase: bool, from: nat): (r: Option<nat>)
    ensures r.Some? ==> from <= r.value && RegionMatches(s, r.value, needle, ignoreCase)
    ensures r.Some? ==> forall j :: from <= j < r.value ==> !RegionMatches(s, j, needle, ignoreCase)
    ensures r.None? ==> forall j :: from <= j ==> !RegionMatches(s, j, needle, ignoreCase)
    decreases |s| + 1 - from
  {
    if from + |needle| > |s| then None
    else if RegionMatches(s, from, needle, ignoreCase) then Some(from)
    else IndexOf(s, needle, ignoreCase, from + 1)
  }

  /** Kotlin's `contains(needle, ignoreCase)`: true exactly when the needle
      occurs somewhere. */
  predicate Contains(s: string, needle: string, ignoreCase: bool): (r: bool)
    ensures r <==> exists j :: RegionMatches(s, j, needle, ignoreCase)
  {
    IndexOf(s, needle, ignoreCase, 0).Some?
  }

  /** Case-insensitive character comparison is symmetric. */
  lemma CharEqualsSymmetric(a: char, b: char, ignoreCase: bool)
    ensures CharEquals(a, b, ignoreCase) == CharEquals(b, a, ignoreCase)
  {
  }

  /** Kotlin's `substringBefore(delimiter)`: the text before the first
      occurrence of the delimiter, or the whole string when it does not occur. */
  function SubstringBefore(s: string, delimiter: string): (r: string)
    ensures |r| <= |s| && r == s[..|r|]
    ensures |delimiter| > 0 ==> !Contains(r, delimiter, false)
    ensures forall j :: 0 <= j < |r| ==> !RegionMatches(s, j, delimiter, false)
    ensures Contains(s, delimiter, false) ==> RegionMatches(s, |r|, delimiter, false)
    ensures !Contains(s, delimiter, false) ==> r == s
  {
    match IndexOf(s, delimiter, false, 0)
    case None => s
    case Some(i) =>
      PrefixBeforeFirstMatch(s, delimiter, i);
      s[..i]
  }

  /** The text before the first occurrence of a non-empty needle does not
      contain it. */
  lemma PrefixBeforeFirstMatch(s: string, needle: string, i: nat)
    requires i <= |s|
    requires forall j :: 0 <= j < i ==> !RegionMatches(s, j, needle, false)
    ensures |needle| > 0 ==> !Contains(s[..i], needle, false)
  {
    forall j | 0 <= j
      ensures |needle| > 0 ==> !RegionMatches(s[..i], j, needle, false)
    {
      assert RegionMatches(s[..i], j, needle, false)
             ==> RegionMatches(s, j, needle, false) && (|needle| > 0 ==> j < i);
    }
  }

  /** Between strings of equal length, case-sensitive `contains` is equality. */
  lemma ContainsSameLength(s: string, needle: string)
    requires |s| == |needle|
    ensures Contains(s, needle, false) <==> s == needle
  {
    if s == needle {
      assert RegionMatches(s, 0, needle, false);
    }
  }

  /** A one-character needle matches exactly where that character stands. */
  lemma RegionMatchesChar(s: string, i: int, c: char)
    ensures RegionMatches(s, i, [c], false) <==> 0 <= i < |s| && s[i] == c
  {
    assert [c][0] == c;
  }

  /** A needle whose first character never appears in `s` does not occur in
      it. */
  lemma AbsentFirstChar(s: string, needle: string)
    requires |needle| > 0
    requires forall i :: 0 <= i < |s| ==> s[i] != needle[0]
    ensures !Contains(s, needle, false)
  {
    forall j | 0 <= j
      ensures !RegionMatches(s, j, needle, false)
    {
      if j < |s| {
        assert s[j + 0] != needle[0];
      }
    }
  }

  /** An occurrence in `a` is still an occurrence once text is appended. */
  lemma ContainsAppendRight(a: string, x: string, needle: string, ignoreCase: bool)
    requires Contains(a, needle, ignoreCase)
    ensures Contains(a + x, needle, ignoreCase)
  {
    var j :| RegionMatches(a, j, needle, ignoreCase);
    forall k | 0 <= k < |needle|
      ensures CharEquals((a + x)[j + k], needle[k], ignoreCase)
    {
      assert (a + x)[j + k] == a[j + k];
    }
    assert RegionMatches(a + x, j, needle, ignoreCase);
  }

  /** An occurrence in `b` is still an occurrence once text is prepended. */
  lemma ContainsAppendLeft(x: string, b: string, needle: string, ignoreCase: bool)
    requires Contains(b, needle, ignoreCase)
    ensures Contains(x + b, needle, ignoreCase)
  {
    var j :| RegionMatches(b, j, needle, ignoreCase);
    forall k | 0 <= k < |needle|
      ensures CharEquals((x + b)[|x| + j + k], needle[k], ignoreCase)
    {
      assert (x + b)[|x| + j + k] == b[j + k];
    }
    assert RegionMatches(x + b, |x| + j, needle, ignoreCase);
  }

  /** No character of `needle` matches a space. */
  predicate NoSpaceMatch(needle: string, ignoreCase: bool) {
    forall k :: 0 <= k < |needle| ==> !CharEquals(' ', needle[k], ignoreCase)
  }

  /** An occurrence that straddles the joining space matches a space with one
      of its characters. */
  lemma StraddleMatchesSpace(a: string, b: string, needle: string, ignoreCase: bool, j: int)
    requires RegionMatches(a + " " + b, j, needle, ignoreCase)
    requires j <= |a| < j + |needle|
    ensures !NoSpaceMatch(needle, ignoreCase)
  {
    var s, k := a + " " + b, |a| - j;
    assert s[j + k] == ' ';
    assert CharEquals(' ', needle[k], ignoreCase);
  }

  /** Joining two texts with a space creates no occurrence of a needle that
      cannot match a space: every occurrence lies in one of the two. */
  lemma ContainsAcrossSpace(a: string, b: string, needle: string, ignoreCase: bool)
    requires NoSpaceMatch(needle, ignoreCase)
    ensures Contains(a + " " + b, needle, ignoreCase)
            <==> Contains(a, needle, ignoreCase) || Contains(b, needle, ignoreCase)
  {
    var s := a + " " + b;
    if Contains(s, needle, ignoreCase) {
      var j :| RegionMatches(s, j, needle, ignoreCase);
      if j <= |a| < j + |needle| {
        StraddleMatchesSpace(a, b, needle, ignoreCase, j);
        assert false;
      } else if j + |needle| <= |a| {
        forall k | 0 <= k < |needle|
          ensures CharEquals(a[j + k], needle[k], ignoreCase)
        {
          assert s[j + k] == a[j + k];
        }
        assert RegionMatches(a, j, needle, ignoreCase);
      } else {
        forall k | 0 <= k < |needle|
          ensures CharEquals(b[j - |a| - 1 + k], needle[k], ignoreCase)
        {
          assert s[j + k] == b[j - |a| - 1 + k];
        }
        assert RegionMatches(b, j - |a| - 1, needle, ignoreCase);
      }
    }
    if Contains(a, needle, ignoreCase) {
      ContainsAppendRight(a, " " + b, needle, ignoreCase);
      assert a + (" " + b) == s;
    }
    if Contains(b, needle, ignoreCase) {
      ContainsAppendLeft(a + " ", b, needle, ignoreCase);
    }
  }

  /** A literal occurrence is a case-sensitive match. */
  lemma SliceMatches(s: string, i: nat, needle: string)
    requires SliceAt(s, i, needle)
    ensures RegionMatches(s, i, needle, false)
    ensures Contains(s, needle, false)
  {
    forall k | 0 <= k < |needle|
      ensures s[i + k] == needle[k]
    {
      assert s[i + k] == s[i..i + |needle|][k];
    }
  }
}
