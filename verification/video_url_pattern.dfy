/** A hand-written scanner for the one regular expression the provider runs
    over inline player scripts:

        (?:file|url)["']\s*:\s*["']([^"']+)

    A match is the key `file` or `url`, immediately followed by a quote, then
    optional whitespace, a colon, optional whitespace, an opening quote and the
    captured value: the longest non-empty run of characters that are not
    quotes. `findAll` reports matches left to right, each search resuming
    where the previous match ended, so matches never overlap. */
module VideoUrlPattern {

  import opened Wrappers

  /** The class `["']`. */
  predicate IsQuote(c: char) {
    c == '"' || c == '\''
  }

  /** The class `\s` of `java.util.regex`: `[ \t\n\x0B\f\r]`. */
  predicate IsRegexSpace(c: char) {
    c == ' ' || c == '\t' || c == '\n' || c == '\U{000B}' || c == '\U{000C}' || c == '\r'
  }

  predicate AllSpaces(s: string) {
    forall k :: 0 <= k < |s| ==> IsRegexSpace(s[k])
  }

  predicate NoQuotes(s: string) {
    forall k :: 0 <= k < |s| ==> !IsQuote(s[k])
  }

  /** One occurrence of the pattern, split into the parts the pattern names. */
  datatype Match = Match(
    start: nat,
    key: string,
    keyQuote: char,
    gapBefore: string,
    gapAfter: string,
    valueQuote: char,
    value: string)
  {
    /** The matched text. */
    function Text(): string {
      key + ([keyQuote] + (gapBefore + ([':'] + (gapAfter + ([valueQuote] + value)))))
    }

    /** Index of the quote after the key. */
    function KeyEnd(): nat {
      start + |key|
    }

    /** Index of the colon. */
    function Colon(): nat {
      KeyEnd() + 1 + |gapBefore|
    }

    /** Index of the quote that opens the value. */
    function ValueQuote(): nat {
      Colon() + 1 + |gapAfter|
    }

    /** Index just past the matched text. */
    function End(): nat {
      ValueQuote() + 1 + |value|
    }

    /** Every part has the shape the pattern demands. */
    predicate WellFormed() {
      && (key == "file" || key == "url")
      && IsQuote(keyQuote)
      && AllSpaces(gapBefore)
      && AllSpaces(gapAfter)
      && IsQuote(valueQuote)
      && |value| > 0
      && NoQuotes(value)
    }
  }

  /** `m` is what the regex engine matches at `m.start` in `s`: a well-formed
      occurrence whose captured value cannot be extended, since the greedy
      group `[^"']+` stops only at a quote or at the end of the text. */
  predicate MatchesIn(s: string, m: Match) {
    && m.WellFormed()
    && m.End() <= |s|
    && s[m.start..m.KeyEnd()] == m.key
    && s[m.KeyEnd()] == m.keyQuote
    && s[m.KeyEnd() + 1..m.Colon()] == m.gapBefore
    && s[m.Colon()] == ':'
    && s[m.Colon() + 1..m.ValueQuote()] == m.gapAfter
    && s[m.ValueQuote()] == m.valueQuote
    && s[m.ValueQuote() + 1..m.End()] == m.value
    && (m.End() == |s| || IsQuote(s[m.End()]))
  }

  /** The parts of a match, read in order, spell its text. */
  lemma MatchText(s: string, m: Match)
    requires MatchesIn(s, m)
    ensures m.End() == m.start + |m.Text()|
    ensures s[m.start..m.End()] == m.Text()
  {
    SplitMatchText(s, m.start, m.KeyEnd(), m.Colon(), m.ValueQuote(), m.End());
  }

  predicate StartsAt(s: string, i: nat, lit: string) {
    i + |lit| <= |s| && s[i..i + |lit|] == lit
  }

  /** Index of the first non-whitespace character at or after `i`. */
  function SpanSpaces(s: string, i: nat): (j: nat)
    requires i <= |s|
    ensures i <= j <= |s| && AllSpaces(s[i..j])
    ensures j == |s| || !IsRegexSpace(s[j])
    decreases |s| - i
  {
    if i < |s| && IsRegexSpace(s[i]) then SpanSpaces(s, i + 1) else i
  }

  /** Index of the first quote at or after `i`, or the end of the text. */
  function SpanNonQuotes(s: string, i: nat): (j: nat)
    requires i <= |s|
    ensures i <= j <= |s| && NoQuotes(s[i..j])
    ensures j == |s| || IsQuote(s[j])
    decreases |s| - i
  {
    if i < |s| && !IsQuote(s[i]) then SpanNonQuotes(s, i + 1) else i
  }

  /** The regex anchored at `i`: its match there, if any. A match found here
      starts at `i` and ends inside the text; `MatchAtSound` and
      `MatchAtComplete` show it is exactly the pattern's match at `i`. */
  function MatchAt(s: string, i: nat): (r: Option<Match>)
    ensures r.Some? ==> r.value.start == i < r.value.End() <= |s|
  {
    if StartsAt(s, i, "file") then AfterKey(s, i, i + 4)
    else if StartsAt(s, i, "url") then AfterKey(s, i, i + 3)
    else None
  }

  /** The key stands at `i..q`; next come a quote, optional whitespace and a
      colon. */
  function AfterKey(s: string, i: nat, q: nat): (r: Option<Match>)
    requires i < q <= |s|
    requires s[i..q] == "file" || s[i..q] == "url"
    ensures r.Some? ==> r.value.start == i && r.value.End() <= |s|
  {
    if q >= |s| || !IsQuote(s[q]) then None
    else
      var a := SpanSpaces(s, q + 1);
      if a >= |s| || s[a] != ':' then None
      else AfterColon(s, i, q, a)
  }

  /** The colon stands at `a`; next come optional whitespace, a quote and the
      captured value. */
  function AfterColon(s: string, i: nat, q: nat, a: nat): (r: Option<Match>)
    requires i < q < a < |s|
    requires s[i..q] == "file" || s[i..q] == "url"
    requires IsQuote(s[q]) && AllSpaces(s[q + 1..a]) && s[a] == ':'
    ensures r.Some? ==> r.value.start == i && r.value.End() <= |s|
  {
    var b := SpanSpaces(s, a + 1);
    if b >= |s| || !IsQuote(s[b]) then None
    else
      var e := SpanNonQuotes(s, b + 1);
      if e == b + 1 then None
      else
        Some(Match(i, s[i..q], s[q], s[q + 1..a], s[a + 1..b], s[b], s[b + 1..e]))
  }

  /** Pieces of the right shapes, cut at `q`, `a`, `b` and `e`, form an
      occurrence of the pattern. */
  lemma PiecesMatch(s: string, i: nat, q: nat, a: nat, b: nat, e: nat)
    requires i < q < a < b && b + 1 < e <= |s|
    requires s[i..q] == "file" || s[i..q] == "url"
    requires IsQuote(s[q]) && AllSpaces(s[q + 1..a]) && s[a] == ':'
    requires AllSpaces(s[a + 1..b]) && IsQuote(s[b]) && NoQuotes(s[b + 1..e])
    requires e == |s| || IsQuote(s[e])
    ensures MatchesIn(s, Match(i, s[i..q], s[q], s[q + 1..a], s[a + 1..b], s[b], s[b + 1..e]))
  {
    var m := Match(i, s[i..q], s[q], s[q + 1..a], s[a + 1..b], s[b], s[b + 1..e]);
    assert m.KeyEnd() == q && m.Colon() == a && m.ValueQuote() == b && m.End() == e;
  }

  /** The text from `i` to `e` in the pieces the pattern names. */
  lemma SplitMatchText(s: string, i: nat, q: nat, a: nat, b: nat, e: nat)
    requires i <= q < a < b < e <= |s|
    ensures s[i..e] == s[i..q] + ([s[q]] + (s[q + 1..a] + ([s[a]] + (s[a + 1..b] + ([s[b]] + s[b + 1..e])))))
  {
    SliceSplit(s, i, q, e);
    SliceSplit(s, q + 1, a, e);
    SliceSplit(s, a + 1, b, e);
  }

  /** A slice is the concatenation of its two halves. */
  lemma SliceSplit(s: string, x: nat, y: nat, z: nat)
    requires x <= y < z <= |s|
    ensures s[x..z] == s[x..y] + ([s[y]] + s[y + 1..z])
  {
  }

  lemma SpanSpacesUnique(s: string, i: nat, j: nat)
    requires i <= j <= |s| && AllSpaces(s[i..j])
    requires j == |s| || !IsRegexSpace(s[j])
    ensures SpanSpaces(s, i) == j
  {
    var j' := SpanSpaces(s, i);
    assert forall k :: i <= k < j ==> IsRegexSpace(s[k]) by {
      forall k | i <= k < j ensures IsRegexSpace(s[k]) {
        assert s[k] == s[i..j][k - i];
      }
    }
    assert forall k :: i <= k < j' ==> IsRegexSpace(s[k]) by {
      forall k | i <= k < j' ensures IsRegexSpace(s[k]) {
        assert s[k] == s[i..j'][k - i];
      }
    }
  }

  lemma SpanNonQuotesUnique(s: string, i: nat, j: nat)
    requires i <= j <= |s| && NoQuotes(s[i..j])
    requires j == |s| || IsQuote(s[j])
    ensures SpanNonQuotes(s, i) == j
  {
    var j' := SpanNonQuotes(s, i);
    assert forall k :: i <= k < j ==> !IsQuote(s[k]) by {
      forall k | i <= k < j ensures !IsQuote(s[k]) {
        assert s[k] == s[i..j][k - i];
      }
    }
    assert forall k :: i <= k < j' ==> !IsQuote(s[k]) by {
      forall k | i <= k < j' ensures !IsQuote(s[k]) {
        assert s[k] == s[i..j'][k - i];
      }
    }
  }

  /** What the scanner finds at `i` is an occurrence of the pattern there. */
  lemma MatchAtSound(s: string, i: nat)
    ensures MatchAt(s, i).Some? ==> MatchesIn(s, MatchAt(s, i).value)
  {
    if StartsAt(s, i, "file") {
      AfterKeySound(s, i, i + 4);
    } else if StartsAt(s, i, "url") {
      AfterKeySound(s, i, i + 3);
    }
  }

  lemma AfterKeySound(s: string, i: nat, q: nat)
    requires i < q <= |s|
    requires s[i..q] == "file" || s[i..q] == "url"
    ensures AfterKey(s, i, q).Some? ==> MatchesIn(s, AfterKey(s, i, q).value)
  {
    if q < |s| && IsQuote(s[q]) {
      var a := SpanSpaces(s, q + 1);
      if a < |s| && s[a] == ':' {
        AfterColonSound(s, i, q, a);
      }
    }
  }

  lemma AfterColonSound(s: string, i: nat, q: nat, a: nat)
    requires i < q < a < |s|
    requires s[i..q] == "file" || s[i..q] == "url"
    requires IsQuote(s[q]) && AllSpaces(s[q + 1..a]) && s[a] == ':'
    ensures AfterColon(s, i, q, a).Some? ==> MatchesIn(s, AfterColon(s, i, q, a).value)
  {
    var b := SpanSpaces(s, a + 1);
    if b < |s| && IsQuote(s[b]) {
      var e := SpanNonQuotes(s, b + 1);
      if e != b + 1 {
        PiecesMatch(s, i, q, a, b, e);
      }
    }
  }

  /** Every occurrence of the pattern is what the scanner finds at its start:
      `MatchAt` is exact, and the match at a position is unique. */
  lemma MatchAtComplete(s: string, m: Match)
    requires MatchesIn(s, m)
    ensures MatchAt(s, m.start) == Some(m)
  {
    KeyAt(s, m);
    AfterKeyComplete(s, m);
  }

  lemma AfterKeyComplete(s: string, m: Match)
    requires MatchesIn(s, m)
    ensures AfterKey.requires(s, m.start, m.KeyEnd())
    ensures AfterKey(s, m.start, m.KeyEnd()) == Some(m)
  {
    SpanSpacesUnique(s, m.KeyEnd() + 1, m.Colon());
    AfterColonComplete(s, m);
  }

  lemma AfterColonComplete(s: string, m: Match)
    requires MatchesIn(s, m)
    ensures AfterColon.requires(s, m.start, m.KeyEnd(), m.Colon())
    ensures AfterColon(s, m.start, m.KeyEnd(), m.Colon()) == Some(m)
  {
    var i, q, a, b, e := m.start, m.KeyEnd(), m.Colon(), m.ValueQuote(), m.End();
    SpanSpacesUnique(s, a + 1, b);
    SpanNonQuotesUnique(s, b + 1, e);
    AfterColonFound(s, i, q, a, b, e);
    assert Match(i, s[i..q], s[q], s[q + 1..a], s[a + 1..b], s[b], s[b + 1..e]) == m;
  }

  /** With the value's quote at `b` and the value running up to `e`, the
      scanner reports exactly those pieces. */
  lemma AfterColonFound(s: string, i: nat, q: nat, a: nat, b: nat, e: nat)
    requires i < q < a < |s|
    requires s[i..q] == "file" || s[i..q] == "url"
    requires IsQuote(s[q]) && AllSpaces(s[q + 1..a]) && s[a] == ':'
    requires SpanSpaces(s, a + 1) == b < |s| && IsQuote(s[b])
    requires SpanNonQuotes(s, b + 1) == e && e != b + 1
    ensures AfterColon(s, i, q, a) == Some(Match(i, s[i..q], s[q], s[q + 1..a], s[a + 1..b], s[b], s[b + 1..e]))
  {
  }

  /** The key of a match decides which alternative of `file|url` applies. */
  lemma KeyAt(s: string, m: Match)
    requires MatchesIn(s, m)
    ensures m.key == "file" ==> StartsAt(s, m.start, "file")
    ensures m.key == "url" ==> !StartsAt(s, m.start, "file") && StartsAt(s, m.start, "url")
  {
    var i := m.start;
    if m.key == "url" {
      assert s[i] == s[i..i + 3][0] == 'u';
      StartsAtFirst(s, i, "file");
    }
  }

  lemma StartsAtFirst(s: string, i: nat, lit: string)
    requires |lit| > 0
    ensures StartsAt(s, i, lit) ==> i < |s| && s[i] == lit[0]
  {
    assert StartsAt(s, i, lit) ==> s[i..i + |lit|][0] == s[i];
  }

  /** A key not followed by a quote, as in `file: "…"`, starts no match. */
  lemma UnquotedKey(s: string, i: nat, key: string)
    requires key == "file" || key == "url"
    requires StartsAt(s, i, key)
    requires i + |key| == |s| || !IsQuote(s[i + |key|])
    ensures MatchAt(s, i).None?
  {
    StartsAtFirst(s, i, "file");
    StartsAtFirst(s, i, "url");
    assert s[i] == s[i..i + |key|][0];
  }

  /** No match of the pattern starts in `lo..hi`. */
  ghost predicate NoMatchIn(s: string, lo: nat, hi: nat) {
    forall p: nat :: lo <= p < hi ==> MatchAt(s, p).None?
  }

  /** No match of the pattern starts at or after `lo`. */
  ghost predicate NoMatchFrom(s: string, lo: nat) {
    forall p: nat :: lo <= p ==> MatchAt(s, p).None?
  }

  /** `Regex.find(s, from)`: the leftmost match starting at or after `from`. */
  function FindFrom(s: string, from: nat): (r: Option<Match>)
    ensures r.Some? ==> from <= r.value.start && MatchAt(s, r.value.start) == r
    ensures r.Some? ==> NoMatchIn(s, from, r.value.start)
    ensures r.None? ==> NoMatchFrom(s, from)
    decreases |s| + 1 - from
  {
    if from > |s| then
      NoMatchPastEnd(s, from);
      None
    else match MatchAt(s, from)
      case Some(m) => Some(m)
      case None =>
        var r := FindFrom(s, from + 1);
        NoMatchStep(s, from, if r.Some? then r.value.start else from + 1);
        r
  }

  /** No match starts past the end of the text. */
  lemma NoMatchPastEnd(s: string, from: nat)
    requires from > |s|
    ensures NoMatchFrom(s, from)
  {
    forall p: nat | from <= p
      ensures MatchAt(s, p).None?
    {
    }
  }

  /** A position without a match extends a match-free range or suffix that
      follows it. */
  lemma NoMatchStep(s: string, from: nat, hi: nat)
    requires MatchAt(s, from).None?
    ensures NoMatchIn(s, from + 1, hi) ==> NoMatchIn(s, from, hi)
    ensures NoMatchFrom(s, from + 1) ==> NoMatchFrom(s, from)
  {
  }

  /** `find` stops at a match where it starts looking. */
  lemma FindFromHere(s: string, from: nat, m: Match)
    requires MatchAt(s, from) == Some(m)
    ensures FindFrom(s, from) == Some(m)
  {
  }

  /** `find` moves on from a position where nothing matches. */
  lemma FindFromSkip(s: string, from: nat)
    requires from <= |s| && MatchAt(s, from).None?
    ensures FindFrom(s, from) == FindFrom(s, from + 1)
  {
  }

  /** What `find` reports is the match at its start, with no match between
      the search start and it. */
  lemma FoundMatch(s: string, from: nat, m: Match)
    requires FindFrom(s, from) == Some(m)
    ensures MatchAt(s, m.start) == Some(m) && from <= m.start && NoMatchIn(s, from, m.start)
  {
  }

  // ---------------------------------------------------------------------
  // findAll

  /** Where the search for the `k`-th match of `ms` began: `from` for the
      first, the end of the previous match for the others. */
  function SearchStart(ms: seq<Match>, from: nat, k: nat): nat
    requires k <= |ms|
  {
    if k == 0 then from else ms[k - 1].End()
  }

  /** `ms` is what a scan from `from` reports: the search for each match,
      started where the previous one ended, finds exactly that match, and the
      search after the last match finds nothing. The trigger keeps the solver
      from walking down the list through the previous match that
      `SearchStart` mentions. */
  ghost predicate IsScan(s: string, from: nat, ms: seq<Match>) {
    && (forall k {:trigger FindFrom(s, SearchStart(ms, from, k))} ::
          0 <= k < |ms| ==> FindFrom(s, SearchStart(ms, from, k)) == Some(ms[k]))
    && FindFrom(s, SearchStart(ms, from, |ms|)).None?
  }

  /** `Regex.findAll(s, from)`: the leftmost match, then the leftmost match
      starting where it ended, and so on. */
  function FindAll(s: string, from: nat): (ms: seq<Match>)
    ensures IsScan(s, from, ms)
    decreases |s| + 1 - from
  {
    match FindFrom(s, from)
    case None => []
    case Some(m) =>
      var rest := FindAll(s, m.End());
      ScanCons(s, from, m, rest);
      [m] + rest
  }

  /** Past the head, the search starts of a list are those of its tail. */
  lemma SearchStartTail(ms: seq<Match>, from: nat, k: nat)
    requires 1 <= k <= |ms|
    ensures SearchStart(ms, from, k) == SearchStart(ms[1..], ms[0].End(), k - 1)
  {
    if k >= 2 {
      assert ms[1..][k - 2] == ms[k - 1];
    }
  }

  /** The leftmost match followed by a scan from its end is a scan. */
  lemma ScanCons(s: string, from: nat, m: Match, rest: seq<Match>)
    requires FindFrom(s, from) == Some(m) && IsScan(s, m.End(), rest)
    ensures IsScan(s, from, [m] + rest)
  {
    var ms := [m] + rest;
    forall k | 0 <= k < |ms|
      ensures FindFrom(s, SearchStart(ms, from, k)) == Some(ms[k])
    {
      if k > 0 {
        ScanConsAt(s, m, rest, from, k);
      }
    }
    ScanConsAt(s, m, rest, from, |ms|);
  }

  /** Past the head, a search of `[m] + rest` is the search of `rest` one
      position earlier. */
  lemma ScanConsAt(s: string, m: Match, rest: seq<Match>, from: nat, k: nat)
    requires 0 < k <= |rest| + 1
    ensures SearchStart([m] + rest, from, k) == SearchStart(rest, m.End(), k - 1)
    ensures k <= |rest| ==> ([m] + rest)[k] == rest[k - 1]
  {
    var ms := [m] + rest;
    assert ms[1..] == rest && ms[0] == m;
    SearchStartTail(ms, from, k);
  }

  /** A match with nothing after it is a scan on its own. */
  lemma ScanSingle(s: string, from: nat, m: Match)
    requires FindFrom(s, from) == Some(m) && FindFrom(s, m.End()).None?
    ensures IsScan(s, from, [m])
  {
    assert SearchStart([m], from, 0) == from;
    assert SearchStart([m], from, 1) == m.End();
  }

  /** Two scans from the same position agree on their common length. */
  lemma {:induction false} ScanAgree(s: string, from: nat, a: seq<Match>, b: seq<Match>, n: nat)
    requires IsScan(s, from, a) && IsScan(s, from, b)
    requires n <= |a| && n <= |b|
    ensures forall i :: 0 <= i < n ==> a[i] == b[i]
    ensures SearchStart(a, from, n) == SearchStart(b, from, n)
    decreases n
  {
    if n > 0 {
      ScanAgree(s, from, a, b, n - 1);
      assert FindFrom(s, SearchStart(a, from, n - 1)) == Some(a[n - 1]);
      assert FindFrom(s, SearchStart(b, from, n - 1)) == Some(b[n - 1]);
      AgreeStep(a, b, from, n);
    }
  }

  /** Lists that agree below `n - 1` and at `n - 1` agree below `n`. */
  lemma AgreeStep(a: seq<Match>, b: seq<Match>, from: nat, n: nat)
    requires 0 < n <= |a| && n <= |b|
    requires forall i :: 0 <= i < n - 1 ==> a[i] == b[i]
    requires a[n - 1] == b[n - 1]
    ensures forall i :: 0 <= i < n ==> a[i] == b[i]
    ensures SearchStart(a, from, n) == SearchStart(b, from, n)
  {
  }

  /** A text has only one scan from a given position: `FindAll` is it. */
  lemma ScanUnique(s: string, from: nat, a: seq<Match>, b: seq<Match>)
    requires IsScan(s, from, a) && IsScan(s, from, b)
    ensures a == b
  {
    var n := if |a| < |b| then |a| else |b|;
    ScanAgree(s, from, a, b, n);
    var x, y := FindFrom(s, SearchStart(a, from, n)), FindFrom(s, SearchStart(b, from, n));
    assert |a| == |b| == n;
  }

  /** The `k`-th match of a scan is the pattern's match at its start, and it
      is the leftmost match after its search start. */
  lemma ScanMatch(s: string, from: nat, ms: seq<Match>, k: nat)
    requires IsScan(s, from, ms) && k < |ms|
    ensures MatchAt(s, ms[k].start) == Some(ms[k])
    ensures SearchStart(ms, from, k) <= ms[k].start
    ensures NoMatchIn(s, SearchStart(ms, from, k), ms[k].start)
  {
    FoundMatch(s, SearchStart(ms, from, k), ms[k]);
  }

  /** No match starts after the last search of a scan. */
  lemma ScanEnd(s: string, from: nat, ms: seq<Match>)
    requires IsScan(s, from, ms)
    ensures NoMatchFrom(s, SearchStart(ms, from, |ms|))
  {
  }

  /** Position `p` lies inside one of the matches `ms`. */
  ghost predicate Covered(ms: seq<Match>, p: nat) {
    exists k :: 0 <= k < |ms| && ms[k].start <= p < ms[k].End()
  }

  /** Every position at or after the start of a scan where the pattern
      matches lies inside a match of the scan. */
  lemma ScanCovers(s: string, from: nat, ms: seq<Match>, p: nat)
    requires IsScan(s, from, ms) && from <= p
    ensures MatchAt(s, p).Some? ==> Covered(ms, p)
  {
    ScanCoversFrom(s, from, ms, 0, p);
  }

  /** The same, for positions at or after the search for the `k`-th match. */
  lemma {:induction false} ScanCoversFrom(s: string, from: nat, ms: seq<Match>, k: nat, p: nat)
    requires IsScan(s, from, ms) && k <= |ms| && SearchStart(ms, from, k) <= p
    ensures MatchAt(s, p).Some? ==> Covered(ms, p)
    decreases |ms| - k
  {
    if k == |ms| {
      ScanEnd(s, from, ms);
      assert MatchAt(s, p).None?;
    } else {
      ScanMatch(s, from, ms, k);
      if p < ms[k].start {
        assert MatchAt(s, p).None?;
      } else if p < ms[k].End() {
        assert ms[k].start <= p < ms[k].End();
      } else {
        ScanCoversFrom(s, from, ms, k + 1, p);
      }
    }
  }

  /** Consecutive matches of a scan do not overlap. */
  lemma {:induction false} ScanOrdered(s: string, from: nat, ms: seq<Match>, j: nat, k: nat)
    requires IsScan(s, from, ms) && j < k < |ms|
    ensures ms[j].End() <= ms[k].start
    decreases k - j
  {
    ScanMatch(s, from, ms, k);
    if j + 1 < k {
      ScanOrdered(s, from, ms, j, k - 1);
    }
  }

  /** No match is skipped: none starts between where the search for the
      `k`-th match began and that match, and none after the last search. */
  lemma FindAllLeftmost(s: string, from: nat, k: nat)
    requires k <= |FindAll(s, from)|
    ensures var ms := FindAll(s, from);
            k < |ms| ==> NoMatchIn(s, SearchStart(ms, from, k), ms[k].start)
    ensures var ms := FindAll(s, from);
            k == |ms| ==> NoMatchFrom(s, SearchStart(ms, from, k))
  {
    var ms := FindAll(s, from);
    if k < |ms| {
      ScanMatch(s, from, ms, k);
    } else {
      ScanEnd(s, from, ms);
    }
  }

  /** Every position at or after `from` where the pattern matches lies inside
      a match that `FindAll(s, from)` reports. */
  lemma FindAllCoversAt(s: string, from: nat, p: nat)
    requires from <= p
    ensures MatchAt(s, p).Some? ==> Covered(FindAll(s, from), p)
  {
    ScanCovers(s, from, FindAll(s, from), p);
  }

  /** Every match the scan reports is an occurrence of the pattern, and its
      parts spell the text it covers. */
  lemma FindAllSound(s: string, from: nat, k: nat)
    requires k < |FindAll(s, from)|
    ensures MatchesIn(s, FindAll(s, from)[k])
    ensures var m := FindAll(s, from)[k];
            m.End() <= |s| && s[m.start..m.End()] == m.Text()
  {
    var ms := FindAll(s, from);
    ScanMatch(s, from, ms, k);
    MatchAtSound(s, ms[k].start);
    MatchText(s, ms[k]);
  }

  /** The scan reports its matches in text order and without overlap. */
  lemma FindAllOrdered(s: string, from: nat, j: nat, k: nat)
    requires j < k < |FindAll(s, from)|
    ensures FindAll(s, from)[j].End() <= FindAll(s, from)[k].start
  {
    ScanOrdered(s, from, FindAll(s, from), j, k);
  }

  /** Every occurrence of the pattern at or after `from` is either reported
      by the scan or starts inside a reported match; one reported at the same
      start is that very occurrence. */
  lemma FindAllComplete(s: string, from: nat, m: Match)
    requires MatchesIn(s, m) && from <= m.start
    ensures Covered(FindAll(s, from), m.start)
    ensures var ms := FindAll(s, from);
            forall k :: 0 <= k < |ms| && ms[k].start == m.start ==> ms[k] == m
  {
    var ms := FindAll(s, from);
    MatchAtComplete(s, m);
    FindAllCoversAt(s, from, m.start);
    forall k | 0 <= k < |ms| && ms[k].start == m.start
      ensures ms[k] == m
    {
      ScanMatch(s, from, ms, k);
    }
  }
}
