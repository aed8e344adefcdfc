# AlQanime provider, modelled in Dafny

This project models the AlQanime content provider, a Cloudstream plugin for
the Indonesian anime site `https://alqanime.net`. The provider turns the
site's HTML pages into host objects. It handles:

- **Home page rows and search.** Catalog cards (`article.bs`) become anime
  entries. Each entry has a trimmed title, a resolved URL, a poster and an
  episode count read from the card's badge.
- **Detail page (`load`).** A title's page becomes a load response. It holds
  the title, kind (movie or series), year, genre tags, status, plot, rating,
  duration, recommendations, and the episode list in reverse page order.
- **Links (`loadLinks`).**
  - Direct `.mp4` and `.mkv` download anchors become links. Their quality is
    cut from the anchor text.
  - The first inline script that mentions `sources` or `file` is also
    scanned. The scanner looks for quoted `file` or `url` keys whose values
    name an HLS playlist or an MP4 file.

The page structure is an input datatype. Each field is what a jsoup selector
would return: an optional text or attribute, or a sequence of them.
`fixUrlNull` is the host's URL resolver, and it is a function parameter.
`toRatingInt` is the host's rating parser, and it is also a parameter. The
Kotlin library functions the provider relies on are modelled from their
documented behaviour:

- `trim` (Kotlin's whitespace set);
- `contains` and `indexOf`, with and without `ignoreCase`;
- `substringBefore`;
- `toIntOrNull` (sign handling and the 32-bit range);
- `Int.toString`;
- `mapNotNull`, `reversed` and `firstOrNull`.

The regular expression `(?:file|url)["']\s*:\s*["']([^"']+)` becomes a
hand-written scanner. `findAll` becomes a leftmost, non-overlapping scan. The
scanner is proved sound and complete against a declarative description of a
match.

Files:

| file | module | contents |
|---|---|---|
| `wrappers.dfy` | `Wrappers` | `Option` |
| `text.dfy` | `Text` | `trim`, `contains`/`indexOf` (case-sensitive and `ignoreCase`), `substringBefore` |
| `kotlin_int.dfy` | `KotlinInt` | `toIntOrNull`, `Int.toString`, the `[^0-9]` filter |
| `seqs.dfy` | `Seqs` | `mapNotNull`, `reversed`, `firstOrNull` |
| `cloudstream.dfy` | `Cloudstream` | the host's records: links, search entries, episodes, load responses |
| `provider.dfy` | `Provider` | name, main URL, language, supported types, home page rows |
| `quality.dfy` | `Quality` | the quality label of a download link and `getQualityFromName` |
| `video_url_pattern.dfy` | `VideoUrlPattern` | the script URL pattern and its `findAll` |
| `links.dfy` | `Links` | `loadLinks`: the download pass and the script pass |
| `cards.dfy` | `Cards` | `toSearchResult`, `getMainPage`, `search` |
| `detail.dfy` | `Detail` | `load` |

The script pattern needs a quote right after the key. So `"file": "…"` and
`'url':'…'` match, while an unquoted key such as `file: "…"` does not
(`VideoUrlPattern.MatchesIn`, `VideoUrlPattern.UnquotedKey`,
`Links.UnquotedScriptScenario`).

## Model

| member | source | states |
|---|---|---|
| Text.Trim | AlQanimeProvider.kt:43 | `trim()` gives a string that neither starts nor ends with whitespace and that is a slice of the input with only whitespace cut on each side |
| Text.TrimUnique | AlQanimeProvider.kt:43 | trimming a trimmed core padded with whitespace on both sides gives back exactly that core |
| Text.TrimIdempotent | AlQanimeProvider.kt:66 | trimming twice is the same as trimming once |
| Text.IndexOf | AlQanimeProvider.kt:141 | `indexOf` returns an index where the needle occurs with no earlier occurrence from the start index, and none exactly when the needle occurs nowhere |
| Text.Contains | AlQanimeProvider.kt:141 | `contains` holds exactly when the needle occurs at some index of the text |
| Text.CharEquals | AlQanimeProvider.kt:100-101 | `Char.equals(…, ignoreCase)`: equal characters match; without `ignoreCase` only equal ones do; between two ASCII characters, with `ignoreCase` exactly those equal after lower-casing match |
| Text.SubstringBefore | AlQanimeProvider.kt:139 | `substringBefore` cuts at the first occurrence of the delimiter: the result is a prefix with no occurrence starting inside it, followed in the input by the delimiter when it occurs, and the whole input when it does not |
| Text.ContainsAcrossSpace | AlQanimeProvider.kt:100 | a space-joined text contains a needle that cannot match a space iff one of the two parts does |
| Text.AbsentFirstChar | AlQanimeProvider.kt:165 | a needle whose first character is absent from a text does not occur in it |
| KotlinInt.ToIntOrNull | AlQanimeProvider.kt:48 | `toIntOrNull` succeeds exactly on an optional sign followed by decimal digits whose value fits in 32 bits, and then returns that value |
| KotlinInt.IntToString | AlQanimeProvider.kt:35 | `Int.toString` spells a signed decimal, never with a plus sign and never with a leading zero, that starts with a minus sign exactly for negative numbers |
| KotlinInt.NatToString | AlQanimeProvider.kt:35 | the decimal spelling of a natural number is a non-empty digit string without a leading zero |
| KotlinInt.IntRoundTrip | AlQanimeProvider.kt:35 | every 32-bit integer printed in decimal parses back to itself |
| KotlinInt.StripNonDigits | AlQanimeProvider.kt:48 | `replace(Regex("[^0-9]"), "")` keeps exactly the ASCII digits of the text |
| KotlinInt.StripNonDigitsAppend | AlQanimeProvider.kt:48 | the digit filter keeps the digits in order: filtering a concatenation concatenates the filtered parts |
| KotlinInt.StripNonDigitsKeepsDigits | AlQanimeProvider.kt:48 | a digits-only text passes the digit filter unchanged |
| Seqs.MapNotNull | AlQanimeProvider.kt:36-38 | `mapNotNull` yields only results of the elements, and every non-null result of an element is among them |
| Seqs.MapNotNullAppend | AlQanimeProvider.kt:58-60 | `mapNotNull` keeps page order: mapping a concatenation concatenates the mapped parts |
| Seqs.MapNotNullPermutation | AlQanimeProvider.kt:137 | permuting the input permutes the output, so a concurrent map yields the same multiset |
| Seqs.Reverse | AlQanimeProvider.kt:88 | `reversed()` puts the element at index k at index n-1-k |
| Seqs.MapNotNullReversed | AlQanimeProvider.kt:75-88 | after `reversed()`, every result of `mapNotNull` still comes from an element, and the result of every element that has one is still there |
| Seqs.ReverseReverse | AlQanimeProvider.kt:88 | reversing twice restores the list |
| Seqs.ReverseAppend | AlQanimeProvider.kt:88 | reversing a concatenation reverses the order of the parts |
| Seqs.FirstIndex | AlQanimeProvider.kt:156-158 | `firstOrNull` finds the first element satisfying the predicate, and none exactly when no element satisfies it |
| Quality.QualityFromName | AlQanimeProvider.kt:183-190 | the tier is the first of 360, 480, 720 and 1080 that occurs in the label; it is Unknown iff the label is null or holds none of them |
| Quality.OrderExamples | AlQanimeProvider.kt:183-190 | "1360" is 360p because 360 is tested first; "SD" and null are Unknown |
| Quality.QualityLabel | AlQanimeProvider.kt:139 | the label is the text before the first 'p', trimmed (the whole text trimmed when there is no 'p'); it is never bounded by whitespace and never holds a 'p' |
| Quality.LabelOf | AlQanimeProvider.kt:139 | when the text before the first 'p' is already trimmed, it is the label |
| Quality.LabelExamples | AlQanimeProvider.kt:139 | "720p" gives the label "720" and "1080p HD" gives "1080" |
| Quality.Classify720 | AlQanimeProvider.kt:139-148 | an anchor labelled "720p" is classified as 720p |
| VideoUrlPattern.MatchAtSound | AlQanimeProvider.kt:162 | what the scanner finds at a position is an occurrence of the pattern there, with a maximal captured value |
| VideoUrlPattern.MatchAtComplete | AlQanimeProvider.kt:162 | every occurrence of the pattern is exactly what the scanner finds at its start |
| VideoUrlPattern.UnquotedKey | AlQanimeProvider.kt:162 | a `file` or `url` key not followed by a quote starts no match |
| VideoUrlPattern.FindFrom | AlQanimeProvider.kt:163 | `find` returns the leftmost match at or after the start, and none when no match starts there |
| VideoUrlPattern.FindAll | AlQanimeProvider.kt:163 | `findAll` is a scan: `find`'s leftmost match, then the scan resumed where that match ends, finishing when `find` reports nothing |
| VideoUrlPattern.ScanUnique | AlQanimeProvider.kt:163 | only one list of matches is a scan from a given position, so `findAll`'s answer is determined by the text alone |
| VideoUrlPattern.ScanMatch | AlQanimeProvider.kt:163 | each match of a scan is the pattern's match at its start, lying at or after where its search began, with no match in between |
| VideoUrlPattern.ScanCovers | AlQanimeProvider.kt:163 | every position at or after the scan's start where the pattern matches lies inside a match of the scan |
| VideoUrlPattern.ScanOrdered | AlQanimeProvider.kt:163 | a later match of a scan starts no earlier than an earlier one ends |
| VideoUrlPattern.FindAllLeftmost | AlQanimeProvider.kt:163 | `findAll` skips no match: none starts between the start of the search for its `k`-th match and that match, nor after its last search |
| VideoUrlPattern.FindAllCoversAt | AlQanimeProvider.kt:163 | every position where the pattern matches lies inside some reported match |
| VideoUrlPattern.FindAllSound | AlQanimeProvider.kt:163-164 | every match `findAll` reports is an occurrence of the pattern in the script text, and its key, quotes, spaces, colon and captured value spell exactly the text it covers |
| VideoUrlPattern.FindAllOrdered | AlQanimeProvider.kt:163-164 | `findAll` reports its matches in text order and without overlap |
| VideoUrlPattern.FindAllComplete | AlQanimeProvider.kt:163-164 | every occurrence of the pattern at or after the scan's start begins inside a reported match, and a reported match with the same start is that very occurrence |
| Links.DownloadLink | AlQanimeProvider.kt:138-152 | an anchor yields a link iff its href resolves to a URL naming `.mp4` or `.mkv`; the link is a non-HLS file named "AlQanime - label", tiered from the label, with the site as referer |
| Links.IsDirectFile | AlQanimeProvider.kt:141 | a URL counts as a direct file exactly when `.mp4` or `.mkv` occurs in it, case-sensitively |
| Links.DownloadPass | AlQanimeProvider.kt:137-153 | the download pass reports at most one link per anchor, every one a non-HLS direct file with the site as referer |
| Links.DownloadPassAppend | AlQanimeProvider.kt:137-153 | the anchors of two parts of the page report the links of both parts, each as often as the anchors produce it |
| Links.DownloadPassOne | AlQanimeProvider.kt:138-152 | one anchor reports its link exactly once when it yields one, and nothing otherwise |
| Links.DownloadPassMembers | AlQanimeProvider.kt:137-153 | a link is reported iff some anchor produces it |
| Links.DownloadPassOrderFree | AlQanimeProvider.kt:137 | visiting the anchors in any order reports the same links |
| Links.DownloadScenario | AlQanimeProvider.kt:137-153 | one `.mkv` anchor labelled "720p" yields exactly one 720p link named "AlQanime - 720" |
| Links.ScriptData | AlQanimeProvider.kt:156-158 | the scanned script is the first one mentioning `sources` or `file`; none exactly when no script mentions either |
| Links.MentionsSources | AlQanimeProvider.kt:157 | a script is picked exactly when `sources` or `file` occurs in its HTML, case-sensitively |
| Links.ScriptLink | AlQanimeProvider.kt:164-176 | a captured URL yields a link iff it is non-empty and mentions `.m3u8` or `.mp4`; the link is HLS iff the URL mentions `.m3u8`, and has Unknown quality |
| Links.MatchLinks | AlQanimeProvider.kt:163-177 | every link comes from a match whose captured value qualifies, and every match whose value qualifies gives its link |
| Links.MatchLinksAppend | AlQanimeProvider.kt:163-177 | matches earlier in the script give links earlier in the list |
| Links.MatchLinksOne | AlQanimeProvider.kt:164-176 | one match gives its link when the captured value is non-empty and mentions `.m3u8` or `.mp4`, and nothing otherwise |
| Links.ScriptLinks | AlQanimeProvider.kt:160-178 | a script's links are those of `findAll`'s matches in order: each link comes from a match whose value is non-empty and mentions `.m3u8` or `.mp4`, and every such match gives its link |
| Links.ScriptPass | AlQanimeProvider.kt:156-178 | without a script mentioning `sources` or `file` nothing is reported; otherwise the links of that one script are reported |
| Links.ScriptScenario | AlQanimeProvider.kt:156-178 | the script `"file":"v.m3u8"` yields one HLS link of Unknown quality for `v.m3u8` |
| Links.UnquotedScriptScenario | AlQanimeProvider.kt:156-178 | the script `file: "v.m3u8"`, with its key unquoted, yields no link |
| Links.EmbedPathIsDropped | AlQanimeProvider.kt:165 | a captured `/embed/42` yields no link |
| Links.LoadLinks | AlQanimeProvider.kt:112-181 | `loadLinks` always answers true and reports exactly the download pass over the page's anchors and the script pass over its scripts |
| Cards.BadgeCount | AlQanimeProvider.kt:48 | the badge count is the number spelled by all the badge's digits; it is null iff there is no badge, the badge has no digits, or the number exceeds `Int.MAX_VALUE` |
| Cards.BadgeShowsNumber | AlQanimeProvider.kt:48 | a badge that spells one number among digit-free words shows that number |
| Cards.BadgeWithoutDigits | AlQanimeProvider.kt:48 | a badge without digits gives no count |
| Cards.BadgeRoundTrip | AlQanimeProvider.kt:48 | every count an `Int` holds reads back from the badge that shows it |
| Cards.ToSearchResult | AlQanimeProvider.kt:42-54 | a card yields an entry iff it has an anchor whose href resolves; the entry is an Anime named by the trimmed title, with the resolved poster and the badge's count |
| Cards.CardRoundTrip | AlQanimeProvider.kt:42-54 | a card rendered from an entry reads back as that entry |
| Cards.SearchResults | AlQanimeProvider.kt:58-60 | every entry comes from one of the cards and every convertible card's entry is listed; all are trimmed-name Anime entries, at most one per card |
| Cards.SearchResultsOne | AlQanimeProvider.kt:58-60 | one card lists its entry when it converts and nothing otherwise, which with `SearchResultsAppend` fixes the order |
| Cards.SearchResultsAppend | AlQanimeProvider.kt:36-38 | entries keep card order across concatenated pages |
| Cards.CatalogUrl | AlQanimeProvider.kt:35 | a row's page address is the row's prefix followed by the page number as `Int.toString` spells it: a minus sign only for a negative page, no leading zero, and parsing back to the page number |
| Cards.HomeRowsOnSite | AlQanimeProvider.kt:27-35 | every page of each of the four home page rows is an address on the site itself |
| Cards.GetMainPage | AlQanimeProvider.kt:34-40 | a home page row is labelled with the request's name; every entry comes from a card of the page and every convertible card is listed, in the search list's card order |
| Cards.SearchUrl | AlQanimeProvider.kt:57 | the search address is the site's search prefix followed by the unescaped query |
| Cards.SearchUrlInjective | AlQanimeProvider.kt:57 | different queries give different addresses |
| Detail.TrimOpt | AlQanimeProvider.kt:71 | an optional text stays present iff it was present, and is then trimmed down to a slice of the original |
| Detail.TitleOf | AlQanimeProvider.kt:66 | the title is "Unknown" without a heading, and otherwise the heading with only its surrounding whitespace removed |
| Detail.TitleRoundTrip | AlQanimeProvider.kt:66 | a heading padded with whitespace gives back its text |
| Detail.TrimmedInt | AlQanimeProvider.kt:69 | the year is present iff the trimmed text is a signed decimal within the 32-bit range, and is then its value |
| Detail.TrimmedIntRoundTrip | AlQanimeProvider.kt:69 | every 32-bit year or episode number, padded with whitespace, reads back |
| Detail.WordyNumberIsNull | AlQanimeProvider.kt:78 | an episode number cell that starts with a word gives no number |
| Detail.KindOf | AlQanimeProvider.kt:70 | the kind is AnimeMovie iff the URL contains `/movie/`, otherwise Anime |
| Detail.MoviePathIsMovie | AlQanimeProvider.kt:70 | any address with a `/movie/` segment is a movie |
| Detail.EpisodeOf | AlQanimeProvider.kt:76-87 | an episode row is kept iff its href resolves; it carries the resolved URL, trimmed title and date, the number read as an Int, and the page poster |
| Detail.EpisodesOf | AlQanimeProvider.kt:75-88 | every episode comes from a row, every row whose href resolves gives its episode, at most one per row, all carrying the page poster |
| Detail.EpisodesOfRow | AlQanimeProvider.kt:76-87 | a row whose href does not resolve gives no episode, and one whose href resolves gives exactly its episode |
| Detail.AnchorlessRowDropped | AlQanimeProvider.kt:76 | a row without an anchor gives no episode when the resolver maps a missing address to null |
| Detail.EpisodesAppend | AlQanimeProvider.kt:75-88 | rows lower on the page come first in the episode list |
| Detail.EpisodesAllRows | AlQanimeProvider.kt:75-88 | when every row resolves, the k-th episode comes from the k-th row counted from the bottom |
| Detail.JoinText | AlQanimeProvider.kt:100 | the joined text is empty iff every element's text is empty |
| Detail.JoinContains | AlQanimeProvider.kt:100-101 | the joined text contains a non-empty needle that cannot match a space iff some element's text does |
| Detail.StatusWordsAvoidSpace | AlQanimeProvider.kt:100-101 | no letter of "Ongoing" or "Completed" matches a space, even ignoring case |
| Detail.StatusOf | AlQanimeProvider.kt:99-103 | Ongoing iff some status span says "Ongoing" in any case; otherwise Completed iff one says "Completed"; otherwise no status |
| Detail.Load | AlQanimeProvider.kt:63-110 | the response keeps the page URL and uses the title as English name; a movie iff the URL has `/movie/`, never an OVA, and always one of the provider's supported types; the episodes are the page's episode list with the page poster; status and recommendations come from the page |

## Left out

- HTTP fetching (`app.get`) and HTML parsing are left out. Each operation takes, as a datatype, what the provider's CSS selectors would return. The selectors themselves, including `span:contains(Status)`, are not modelled.
- The host's helpers are function parameters. These are `fixUrlNull`, `toRatingInt`, and the builders `newAnimeSearchResponse`, `newAnimeLoadResponse`, `addSub`, `addEpisodes` and `newHomePageResponse`. The builders become plain record construction.
- The iframe pass and the player-option pass of `loadLinks` (AlQanimeProvider.kt:121-134) are left out. They only hand URLs to `loadExtractor`, the host's extractor registry, whose code is not part of this model.
- The `USER_AGENT` constant (AlQanimeProvider.kt:24) is left out. It is declared but never used.
- `hasMainPage`, `hasDownloadSupport` and `hasQuickSearch` are left out. They are flags read by the host.
- Links.DownloadPass: `apmap` runs the anchors concurrently, and the order of its callbacks is not modelled. The pass is a multiset, and `DownloadPassOrderFree` shows the order of the anchors does not change it.
- Links.LoadLinks: the callback is replaced by the collection of reported links. The interleaving of the concurrent download callbacks with the script links is not modelled.
- The `Qualities` tiers are an enumeration. Their integer values belong to the host.
- KotlinInt.ToIntOrNull: only ASCII digits count as digits. Kotlin also accepts other Unicode decimal digits, which the site's numbers do not use.
- Text.UpperCase and Text.LowerCase are only exact for characters whose upper or lower case is an ASCII letter. So `contains(…, ignoreCase = true)` is exact for the ASCII needles the provider uses ("Ongoing", "Completed"), not in general.
- Text.IsWhitespace: `trim` uses Kotlin's whitespace set for characters. U+180E is not in it, and surrogate pairs are not modelled: strings are sequences of Unicode scalar values, not UTF-16 code units.
- VideoUrlPattern.IsRegexSpace: `\s` is the default Java class `[ \t\n\x0B\f\r]`, since the pattern is compiled without Unicode flags.
- Detail.JoinText follows the jsoup form that writes a space before an element only once something has been written. Some jsoup versions put a space between every pair of elements. That only differs when an element's text is empty, and `JoinContains` holds for the shown status either way.
- jsoup's own whitespace normalisation in `text()` is left out. The page datatypes hold texts as `text()` returns them.
- The badge count of a text with two numbers, such as "3/12", reads all the digits together (312). This is what the code does, and the model keeps it.
