/** `load`: a title's detail page turned into the host's load response. */
module Detail {

  import opened Wrappers
  import opened Text
  import opened KotlinInt
  import opened Seqs
  import opened Cloudstream
  import opened Cards
  import opened Provider

  /** One row of the episode list: the `href` of its anchor (absent when the
      row has no anchor) and the texts of its title, number and date cells
      (each absent when the cell is missing). */
  datatype EpisodeItem = EpisodeItem(
    href: Option<string>,
    title: Option<string>,
    number: Option<string>,
    date: Option<string>)

  /** What `load` reads from a detail page: the heading, the thumbnail's
      `src`, the genre links' texts, the year, description, rating and
      duration texts, the episode rows in page order, the texts of the
      information spans that mention `Status`, and the related cards. */
  datatype DetailPage = DetailPage(
    entryTitle: Option<string>,
    thumbSrc: Option<string>,
    genres: seq<string>,
    yearText: Option<string>,
    description: Option<string>,
    ratingText: Option<string>,
    duration: Option<string>,
    episodes: seq<EpisodeItem>,
    statusSpans: seq<string>,
    related: seq<Card>)

  // ---------------------------------------------------------------------
  // Single fields

  /** `?.trim()` on an optional text. */
  function TrimOpt(text: Option<string>): (r: Option<string>)
    ensures r.Some? <==> text.Some?
    ensures r.Some? ==> IsTrimmed(r.value) && exists lo :: CoreAt(text.value, lo, r.value)
  {
    match text
    case None => None
    case Some(t) => Some(Trim(t))
  }

  /** The title: the trimmed heading, or "Unknown" when the page has none. */
  function TitleOf(entryTitle: Option<string>): (title: string)
    ensures entryTitle.None? ==> title == "Unknown"
    ensures entryTitle.Some? ==> IsTrimmed(title) && exists lo :: CoreAt(entryTitle.value, lo, title)
  {
    match entryTitle
    case None => "Unknown"
    case Some(t) => Trim(t)
  }

  /** A heading padded with whitespace gives back its text. */
  lemma TitleRoundTrip(pad: string, title: string)
    requires AllWhitespace(pad) && IsTrimmed(title)
    ensures TitleOf(Some(pad + title + pad)) == title
  {
    TrimUnique(pad, title, pad);
  }

  /** `?.trim()?.toIntOrNull()`, used for the year and the episode number: an
      optional sign and decimal digits, surrounded by nothing but whitespace,
      whose value fits in an `Int`. */
  function TrimmedInt(text: Option<string>): (r: Option<int>)
    ensures r.Some? <==> text.Some? && IsSignedDecimal(Trim(text.value))
                         && InIntRange(SignedValue(Trim(text.value)))
    ensures r.Some? ==> InIntRange(r.value) && r.value == SignedValue(Trim(text.value))
  {
    match text
    case None => None
    case Some(t) => ToIntOrNull(Trim(t))
  }

  /** Decimal text never starts or ends with whitespace. */
  lemma IntToStringTrimmed(n: int)
    ensures IsTrimmed(IntToString(n))
  {
    var s := IntToString(n);
    if n < 0 {
      assert s[1..] == NatToString(-n);
      assert s[|s| - 1] == NatToString(-n)[|NatToString(-n)| - 1];
    }
  }

  /** Every `Int`, written in decimal and padded with whitespace, reads back. */
  lemma TrimmedIntRoundTrip(p: string, n: int, q: string)
    requires AllWhitespace(p) && AllWhitespace(q)
    requires InIntRange(n)
    ensures TrimmedInt(Some(p + IntToString(n) + q)) == Some(n)
  {
    IntToStringTrimmed(n);
    TrimUnique(p, IntToString(n), q);
    IntRoundTrip(n);
  }

  /** Unlike a card's episode badge, an episode number cell is not stripped
      to its digits: a cell that starts with a word, such as "Episode 12",
      gives no number. */
  lemma WordyNumberIsNull(text: string)
    requires |Trim(text)| > 0
    requires var c := Trim(text)[0]; !IsDigit(c) && c != '+' && c != '-'
    ensures TrimmedInt(Some(text)).None?
  {
  }

  /** The kind: a movie exactly when the page address contains `/movie/`,
      otherwise a series; never an OVA. */
  function KindOf(url: string): (kind: TvType)
    ensures kind == AnimeMovie <==> Contains(url, "/movie/", false)
    ensures kind == Anime <==> !Contains(url, "/movie/", false)
  {
    if Contains(url, "/movie/", false) then AnimeMovie else Anime
  }

  /** Any address with a `/movie/` segment is a movie. */
  lemma MoviePathIsMovie(prefix: string, slug: string)
    ensures KindOf(prefix + "/movie/" + slug) == AnimeMovie
  {
    var url := prefix + "/movie/" + slug;
    assert url[|prefix|..|prefix| + |"/movie/"|] == "/movie/";
    SliceMatches(url, |prefix|, "/movie/");
  }

  // ---------------------------------------------------------------------
  // Episodes

  /** One episode row: dropped when its anchor is missing or its target does
      not resolve; otherwise an episode pointing at the resolved target, with
      the trimmed title and date cells, the number cell read as an `Int`, and
      the page's poster. */
  function EpisodeOf(item: EpisodeItem, poster: Option<string>, fixUrlNull: Option<string> -> Option<string>): (r: Option<Episode>)
    ensures r.Some? <==> fixUrlNull(item.href).Some?
    ensures r.Some? ==> && r.value.data == fixUrlNull(item.href).value
                        && r.value.name == TrimOpt(item.title)
                        && r.value.episode == TrimmedInt(item.number)
                        && r.value.posterUrl == poster
                        && r.value.date == TrimOpt(item.date)
  {
    match fixUrlNull(item.href)
    case None => None
    case Some(href) =>
      Some(Episode(href, TrimOpt(item.title), TrimmedInt(item.number), poster, TrimOpt(item.date)))
  }

  /** The episode list: the kept rows in the reverse of page order. Every
      episode comes from a row, every row whose target resolves gives one,
      and all carry the page's poster. */
  function EpisodesOf(items: seq<EpisodeItem>, poster: Option<string>, fixUrlNull: Option<string> -> Option<string>): (r: seq<Episode>)
    ensures |r| <= |items|
    ensures forall k :: 0 <= k < |r| ==>
              exists i :: 0 <= i < |items| && EpisodeOf(items[i], poster, fixUrlNull) == Some(r[k])
    ensures forall i :: 0 <= i < |items| && fixUrlNull(items[i].href).Some? ==>
              EpisodeOf(items[i], poster, fixUrlNull).value in r
    ensures forall k :: 0 <= k < |r| ==> r[k].posterUrl == poster
  {
    var f := (item: EpisodeItem) => EpisodeOf(item, poster, fixUrlNull);
    var kept := MapNotNull(f, items);
    MapNotNullReversed(f, items);
    assert forall i :: 0 <= i < |items| ==> f(items[i]) == EpisodeOf(items[i], poster, fixUrlNull);
    Reverse(kept)
  }

  /** A single row gives its episode when its target resolves and nothing
      otherwise; with `EpisodesAppend` this fixes the whole list. */
  lemma EpisodesOfRow(item: EpisodeItem, poster: Option<string>, fixUrlNull: Option<string> -> Option<string>)
    ensures fixUrlNull(item.href).None? ==> EpisodesOf([item], poster, fixUrlNull) == []
    ensures fixUrlNull(item.href).Some? ==>
              EpisodesOf([item], poster, fixUrlNull) == [EpisodeOf(item, poster, fixUrlNull).value]
  {
    var f := (it: EpisodeItem) => EpisodeOf(it, poster, fixUrlNull);
    assert [item][1..] == [];
    assert MapNotNull(f, [item]) == if f(item).Some? then [f(item).value] else [];
  }

  /** A row without an anchor gives no episode, as long as the resolver
      maps a missing address to null, as the host's `fixUrlNull` does. */
  lemma AnchorlessRowDropped(item: EpisodeItem, poster: Option<string>, fixUrlNull: Option<string> -> Option<string>)
    requires fixUrlNull(None) == None && item.href.None?
    ensures EpisodesOf([item], poster, fixUrlNull) == []
  {
    EpisodesOfRow(item, poster, fixUrlNull);
  }

  /** The page lists the newest episode first; the result lists the rows of
      a later part of the page before those of an earlier part. */
  lemma EpisodesAppend(a: seq<EpisodeItem>, b: seq<EpisodeItem>, poster: Option<string>, fixUrlNull: Option<string> -> Option<string>)
    ensures EpisodesOf(a + b, poster, fixUrlNull)
            == EpisodesOf(b, poster, fixUrlNull) + EpisodesOf(a, poster, fixUrlNull)
  {
    var f := (item: EpisodeItem) => EpisodeOf(item, poster, fixUrlNull);
    MapNotNullAppend(f, a, b);
    ReverseAppend(MapNotNull(f, a), MapNotNull(f, b));
  }

  /** When every row resolves, the k-th episode is the k-th row counted from
      the bottom of the page. */
  lemma EpisodesAllRows(items: seq<EpisodeItem>, poster: Option<string>, fixUrlNull: Option<string> -> Option<string>)
    requires forall i :: 0 <= i < |items| ==> fixUrlNull(items[i].href).Some?
    ensures |EpisodesOf(items, poster, fixUrlNull)| == |items|
    ensures forall k :: 0 <= k < |items| ==>
              Some(EpisodesOf(items, poster, fixUrlNull)[k]) == EpisodeOf(items[|items| - 1 - k], poster, fixUrlNull)
  {
    var f := (item: EpisodeItem) => EpisodeOf(item, poster, fixUrlNull);
    MapNotNullTotal(f, items);
  }

  // ---------------------------------------------------------------------
  // Status

  /** jsoup's `Elements.text()`: the texts of the elements, a space put
      before each one only when something has been written already. */
  function JoinText(texts: seq<string>): (r: string)
    ensures |r| == 0 <==> forall k :: 0 <= k < |texts| ==> |texts[k]| == 0
  {
    if |texts| == 0 then ""
    else
      var acc := JoinText(texts[..|texts| - 1]);
      var last := texts[|texts| - 1];
      assert forall k :: 0 <= k < |texts| - 1 ==> texts[k] == texts[..|texts| - 1][k];
      if |acc| == 0 then last else acc + " " + last
  }

  /** A non-empty needle that cannot match a space occurs in the joined text
      exactly when it occurs in one of the texts. */
  lemma {:induction false} JoinContains(texts: seq<string>, needle: string, ignoreCase: bool)
    requires |needle| > 0 && NoSpaceMatch(needle, ignoreCase)
    ensures Contains(JoinText(texts), needle, ignoreCase)
            <==> exists k :: 0 <= k < |texts| && Contains(texts[k], needle, ignoreCase)
  {
    if |texts| > 0 {
      var init, last := texts[..|texts| - 1], texts[|texts| - 1];
      var acc := JoinText(init);
      JoinContains(init, needle, ignoreCase);
      assert forall k :: 0 <= k < |init| ==> init[k] == texts[k];
      if |acc| == 0 {
        forall k | 0 <= k < |init|
          ensures !Contains(texts[k], needle, ignoreCase)
        {
          assert |init[k]| == 0;
        }
      } else {
        ContainsAcrossSpace(acc, last, needle, ignoreCase);
      }
    }
  }

  /** Upper- or lower-case, ASCII letters never match a space. */
  lemma StatusWordsAvoidSpace()
    ensures NoSpaceMatch("Ongoing", true)
    ensures NoSpaceMatch("Completed", true)
  {
  }

  /** Some status span mentions `word`, ignoring case. */
  predicate AnySpanSays(spans: seq<string>, word: string) {
    exists k :: 0 <= k < |spans| && Contains(spans[k], word, true)
  }

  /** The show status: ongoing when a status span says "Ongoing" in any
      case, else completed when one says "Completed", else unknown. */
  function StatusOf(spans: seq<string>): (r: Option<ShowStatus>)
    ensures r == Some(Ongoing) <==> AnySpanSays(spans, "Ongoing")
    ensures r == Some(Completed) <==> !AnySpanSays(spans, "Ongoing") && AnySpanSays(spans, "Completed")
    ensures r.None? <==> !AnySpanSays(spans, "Ongoing") && !AnySpanSays(spans, "Completed")
  {
    var text := JoinText(spans);
    StatusWordsAvoidSpace();
    JoinContains(spans, "Ongoing", true);
    JoinContains(spans, "Completed", true);
    if Contains(text, "Ongoing", true) then Some(Ongoing)
    else if Contains(text, "Completed", true) then Some(Completed)
    else None
  }

  // ---------------------------------------------------------------------
  // The load response

  /** `load`: the response for the page at `url`. The rating is whatever the
      host's `toRatingInt` makes of the rating text. */
  function Load(url: string, page: DetailPage, fixUrlNull: Option<string> -> Option<string>,
                toRatingInt: string -> Option<int>): (r: AnimeLoadResponse)
    ensures r.url == url && r.name == TitleOf(page.entryTitle) && r.engName == r.name
    ensures r.kind == AnimeMovie <==> Contains(url, "/movie/", false)
    ensures r.kind != OVA && r.kind in SupportedTypes
    ensures r.posterUrl == fixUrlNull(page.thumbSrc)
    ensures r.year == TrimmedInt(page.yearText)
    ensures r.subbedEpisodes == EpisodesOf(page.episodes, r.posterUrl, fixUrlNull)
    ensures forall k :: 0 <= k < |r.subbedEpisodes| ==> r.subbedEpisodes[k].posterUrl == r.posterUrl
    ensures r.showStatus == StatusOf(page.statusSpans)
    ensures r.plot == TrimOpt(page.description) && r.duration == TrimOpt(page.duration)
    ensures r.tags == page.genres
    ensures page.ratingText.None? ==> r.rating.None?
    ensures page.ratingText.Some? ==> r.rating == toRatingInt(page.ratingText.value)
    ensures r.recommendations == SearchResults(page.related, fixUrlNull)
  {
    var title := TitleOf(page.entryTitle);
    var poster := fixUrlNull(page.thumbSrc);
    var rating := match page.ratingText
      case None => None
      case Some(t) => toRatingInt(t);
    AnimeLoadResponse(
      title, url, KindOf(url), title, poster, TrimmedInt(page.yearText),
      EpisodesOf(page.episodes, poster, fixUrlNull),
      StatusOf(page.statusSpans),
      TrimOpt(page.description), page.genres, rating, TrimOpt(page.duration),
      SearchResults(page.related, fixUrlNull))
  }
}
