/** Catalog cards (`article.bs`) and the lists built from them: the home
    page rows, search results and a detail page's recommendations. */
module Cards {

  import opened Wrappers
  import opened Text
  import opened KotlinInt
  import opened Seqs
  import opened Cloudstream
  import opened Provider

  /** A card's `div.bsx > a` anchor: its `title` and `href` attributes, each
      empty when the attribute is missing. */
  datatype Anchor = Anchor(title: string, href: string)

  /** What the provider reads from one card: the anchor (absent when the card
      has none), the poster image's `src` attribute (absent when there is no
      image) and the text of the episode badge (absent when there is no
      badge). */
  datatype Card = Card(anchor: Option<Anchor>, imageSrc: Option<string>, badge: Option<string>)

  /** A text without any ASCII digit. */
  predicate NoDigits(s: string) {
    forall k :: 0 <= k < |s| ==> !IsDigit(s[k])
  }

  /** The episode count a badge shows: every ASCII digit of its text, read
      together as one decimal number; null without a badge, without digits,
      or when the number does not fit in an `Int`. */
  function BadgeCount(badge: Option<string>): (r: Option<int>)
    ensures r.Some? <==> badge.Some? && |StripNonDigits(badge.value)| > 0
                         && DigitsValue(StripNonDigits(badge.value)) <= IntMax
    ensures r.Some? ==> 0 <= r.value <= IntMax && r.value == DigitsValue(StripNonDigits(badge.value))
  {
    match badge
    case None => None
    case Some(t) =>
      ParseDigitsOnly(StripNonDigits(t));
      ToIntOrNull(StripNonDigits(t))
  }

  /** The digit filter erases a text without digits. */
  lemma StripNoDigits(s: string)
    requires NoDigits(s)
    ensures StripNonDigits(s) == ""
  {
    var r := StripNonDigits(s);
    assert forall k :: 0 <= k < |r| ==> r[k] in r;
  }

  /** A badge that spells one number among digit-free words, such as
      "Ep 12" or "12 Episode", shows that number. */
  lemma BadgeShowsNumber(p: string, n: nat, q: string)
    requires NoDigits(p) && NoDigits(q)
    requires n <= IntMax
    ensures BadgeCount(Some(p + NatToString(n) + q)) == Some(n)
  {
    var ds := NatToString(n);
    StripNonDigitsAppend(p + ds, q);
    StripNonDigitsAppend(p, ds);
    StripNoDigits(p);
    StripNoDigits(q);
    StripNonDigitsKeepsDigits(ds);
    assert StripNonDigits(p + ds + q) == ds;
    NatToStringValue(n);
  }

  /** A badge without digits, such as "Movie", gives no count. */
  lemma BadgeWithoutDigits(t: string)
    requires NoDigits(t)
    ensures BadgeCount(Some(t)).None?
  {
    StripNoDigits(t);
  }

  /** `toSearchResult`: a card becomes an anime entry named by the trimmed
      anchor title and pointing at the resolved anchor target; it is dropped
      when the card has no anchor or the target does not resolve. The poster
      is the resolved image source and the badge's count is recorded as
      the number of subbed episodes. */
  function ToSearchResult(card: Card, fixUrlNull: Option<string> -> Option<string>): (r: Option<AnimeSearchResponse>)
    ensures r.Some? <==> card.anchor.Some? && fixUrlNull(Some(card.anchor.value.href)).Some?
    ensures r.Some? ==> && IsTrimmed(r.value.name)
                        && (exists lo :: CoreAt(card.anchor.value.title, lo, r.value.name))
                        && r.value.url == fixUrlNull(Some(card.anchor.value.href)).value
                        && r.value.kind == Anime
                        && r.value.posterUrl == fixUrlNull(card.imageSrc)
                        && r.value.subEpisodes == BadgeCount(card.badge)
  {
    match card.anchor
    case None => None
    case Some(a) =>
      match fixUrlNull(Some(a.href))
      case None => None
      case Some(href) =>
        Some(AnimeSearchResponse(Trim(a.title), href, Anime, fixUrlNull(card.imageSrc), BadgeCount(card.badge)))
  }

  /** The badge that shows an episode count: the count's digits, or no badge
      at all. */
  function BadgeFor(count: Option<nat>): Option<string> {
    if count.Some? then Some(NatToString(count.value)) else None
  }

  /** Every count an `Int` holds reads back from the badge that shows it. */
  lemma BadgeRoundTrip(count: Option<nat>)
    requires count.Some? ==> count.value <= IntMax
    ensures BadgeCount(BadgeFor(count)) == count
  {
    if count.Some? {
      var n := count.value;
      assert "" + NatToString(n) + "" == NatToString(n);
      BadgeShowsNumber("", n, "");
    }
  }

  /** A card that renders `x`: its title is the name padded with whitespace,
      its badge shows the episode count. */
  function CardFor(x: AnimeSearchResponse, pad: string): Card
    requires x.subEpisodes.Some? ==> x.subEpisodes.value >= 0
  {
    Card(Some(Anchor(pad + x.name + pad, x.url)),
         x.posterUrl,
         BadgeFor(if x.subEpisodes.Some? then Some(x.subEpisodes.value as nat) else None))
  }

  /** Reading back a rendered card gives the entry it renders, as long as the
      URL resolver leaves the entry's own URLs unchanged: the conversion
      loses nothing the host's entry holds. */
  lemma CardRoundTrip(x: AnimeSearchResponse, pad: string, fixUrlNull: Option<string> -> Option<string>)
    requires IsTrimmed(x.name) && AllWhitespace(pad)
    requires x.kind == Anime
    requires x.subEpisodes.Some? ==> 0 <= x.subEpisodes.value <= IntMax
    requires fixUrlNull(Some(x.url)) == Some(x.url)
    requires fixUrlNull(x.posterUrl) == x.posterUrl
    ensures ToSearchResult(CardFor(x, pad), fixUrlNull) == Some(x)
  {
    TrimUnique(pad, x.name, pad);
    var count: Option<nat> := if x.subEpisodes.Some? then Some(x.subEpisodes.value as nat) else None;
    BadgeRoundTrip(count);
  }

  /** The entries a list of cards yields, in page order: the list of a home
      page row, the answer to `search`, and a detail page's
      recommendations. */
  function SearchResults(cards: seq<Card>, fixUrlNull: Option<string> -> Option<string>): (r: seq<AnimeSearchResponse>)
    ensures |r| <= |cards|
    ensures forall k :: 0 <= k < |r| ==>
              exists i :: 0 <= i < |cards| && ToSearchResult(cards[i], fixUrlNull) == Some(r[k])
    ensures forall k :: 0 <= k < |r| ==> r[k].kind == Anime && IsTrimmed(r[k].name)
    ensures forall i :: 0 <= i < |cards| && ToSearchResult(cards[i], fixUrlNull).Some? ==>
              ToSearchResult(cards[i], fixUrlNull).value in r
  {
    var f := (c: Card) => ToSearchResult(c, fixUrlNull);
    var r := MapNotNull(f, cards);
    assert forall k :: 0 <= k < |r| ==> exists i :: 0 <= i < |cards| && f(cards[i]) == Some(r[k]);
    r
  }

  /** A single card gives its entry when it converts and nothing otherwise;
      with `SearchResultsAppend` this fixes the whole list, order included. */
  lemma SearchResultsOne(card: Card, fixUrlNull: Option<string> -> Option<string>)
    ensures ToSearchResult(card, fixUrlNull).None? ==> SearchResults([card], fixUrlNull) == []
    ensures ToSearchResult(card, fixUrlNull).Some? ==>
              SearchResults([card], fixUrlNull) == [ToSearchResult(card, fixUrlNull).value]
  {
    var f := (c: Card) => ToSearchResult(c, fixUrlNull);
    assert [card][1..] == [];
    assert MapNotNull(f, [card]) == if f(card).Some? then [f(card).value] else [];
  }

  /** The cards of two pages read in sequence give the entries of the first
      followed by those of the second. */
  lemma SearchResultsAppend(a: seq<Card>, b: seq<Card>, fixUrlNull: Option<string> -> Option<string>)
    ensures SearchResults(a + b, fixUrlNull) == SearchResults(a, fixUrlNull) + SearchResults(b, fixUrlNull)
  {
    MapNotNullAppend((c: Card) => ToSearchResult(c, fixUrlNull), a, b);
  }

  // ---------------------------------------------------------------------
  // Home page and search

  /** The address of page `page` of a home page row: the row's prefix
      followed by the page number in decimal, with a minus sign only for a
      negative number and no leading zero. */
  function CatalogUrl(request: MainPageRequest, page: int): (url: string)
    ensures |request.data| < |url| && url[..|request.data|] == request.data
    ensures InIntRange(page) ==> ToIntOrNull(url[|request.data|..]) == Some(page)
    ensures var d := url[|request.data|..];
            var digits := if page < 0 then d[1..] else d;
            |d| > 0 && (d[0] == '-' <==> page < 0) && (|digits| > 1 ==> digits[0] != '0')
  {
    var url := request.data + IntToString(page);
    assert url[|request.data|..] == IntToString(page);
    assert InIntRange(page) ==> ToIntOrNull(IntToString(page)) == Some(page) by {
      if InIntRange(page) {
        IntRoundTrip(page);
      }
    }
    url
  }

  /** Every page of every home page row is fetched from the site itself. */
  lemma HomeRowsOnSite(k: nat, page: int)
    requires k < |MainPage|
    ensures var url := CatalogUrl(MainPage[k], page);
            |MainUrl| < |url| && url[..|MainUrl|] == MainUrl
  {
    var data := MainPage[k].data;
    assert data[..|MainUrl|] == MainUrl;
    var url := CatalogUrl(MainPage[k], page);
    assert url[..|MainUrl|] == url[..|data|][..|MainUrl|];
  }

  /** `getMainPage`: one row of the home page, labelled with the request's
      name. Every entry comes from one of the page's cards and every card
      that converts is listed, in card order (the search list). */
  function GetMainPage(request: MainPageRequest, cards: seq<Card>, fixUrlNull: Option<string> -> Option<string>): (r: HomePageResponse)
    ensures r.name == request.name
    ensures forall k :: 0 <= k < |r.list| ==>
              exists i :: 0 <= i < |cards| && ToSearchResult(cards[i], fixUrlNull) == Some(r.list[k])
    ensures forall i :: 0 <= i < |cards| && ToSearchResult(cards[i], fixUrlNull).Some? ==>
              ToSearchResult(cards[i], fixUrlNull).value in r.list
    ensures r.list == SearchResults(cards, fixUrlNull)
  {
    HomePageResponse(request.name, SearchResults(cards, fixUrlNull))
  }

  const SearchPrefix: string := MainUrl + "/?s="

  /** The search address: the query is appended as it is, without escaping. */
  function SearchUrl(query: string): (url: string)
    ensures |url| == |SearchPrefix| + |query|
    ensures url[..|SearchPrefix|] == SearchPrefix && url[|SearchPrefix|..] == query
  {
    SearchPrefix + query
  }

  /** Different queries ask for different addresses. */
  lemma SearchUrlInjective(q1: string, q2: string)
    ensures SearchUrl(q1) == SearchUrl(q2) ==> q1 == q2
  {
    var u1, u2 := SearchUrl(q1), SearchUrl(q2);
    assert u1 == u2 ==> u1[|SearchPrefix|..] == u2[|SearchPrefix|..];
  }
}
