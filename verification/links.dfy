/** `loadLinks`: the direct-download pass and the inline-script pass. */
module Links {

  import opened Wrappers
  import opened Text
  import opened Seqs
  import opened Cloudstream
  import opened Provider
  import opened Quality
  import opened VideoUrlPattern

  // ---------------------------------------------------------------------
  // Direct download links

  /** An anchor under a download container: its `href` attribute (empty when
      the attribute is missing) and its text. */
  datatype DownloadAnchor = DownloadAnchor(href: string, text: string)

  /** A URL naming a container file the host can play directly. */
  predicate IsDirectFile(url: string): (r: bool)
    ensures r <==> exists j :: RegionMatches(url, j, ".mp4", false) || RegionMatches(url, j, ".mkv", false)
  {
    Contains(url, ".mp4", false) || Contains(url, ".mkv", false)
  }

  /** One download anchor: kept only when its resolved URL names an `.mp4`
      or `.mkv` file, and then reported as a plain file whose name carries
      the quality label and whose tier is classified from that label. */
  function DownloadLink(a: DownloadAnchor, fixUrlNull: Option<string> -> Option<string>): (r: Option<ExtractorLink>)
    ensures r.Some? <==> fixUrlNull(Some(a.href)).Some? && IsDirectFile(fixUrlNull(Some(a.href)).value)
    ensures r.Some? ==> && r.value.url == fixUrlNull(Some(a.href)).value
                        && r.value.source == Name
                        && r.value.name == Name + " - " + QualityLabel(a.text)
                        && r.value.referer == MainUrl
                        && r.value.quality == QualityFromName(Some(QualityLabel(a.text)))
                        && !r.value.isM3u8
  {
    match fixUrlNull(Some(a.href))
    case None => None
    case Some(url) =>
      var quality := QualityLabel(a.text);
      if IsDirectFile(url) then
        Some(ExtractorLink(Name, Name + " - " + quality, url, MainUrl, QualityFromName(Some(quality)), false))
      else None
  }

  /** `DownloadLink` as the function the pass maps over the anchors. */
  function DownloadOf(fixUrlNull: Option<string> -> Option<string>): DownloadAnchor -> Option<ExtractorLink> {
    (a: DownloadAnchor) => DownloadLink(a, fixUrlNull)
  }

  /** The download pass. The source fans the anchors out concurrently, so the
      order of the callbacks is not fixed: the pass is a multiset. */
  function DownloadPass(anchors: seq<DownloadAnchor>, fixUrlNull: Option<string> -> Option<string>): (r: multiset<ExtractorLink>)
    ensures |r| <= |anchors|
    ensures forall l :: l in r ==> !l.isM3u8 && l.referer == MainUrl && IsDirectFile(l.url)
  {
    var links := MapNotNull(DownloadOf(fixUrlNull), anchors);
    DownloadLinksShape(anchors, fixUrlNull);
    multiset(links)
  }

  /** Every link the anchors yield is a plain direct file with the site as
      referer. */
  lemma {:induction false} DownloadLinksShape(anchors: seq<DownloadAnchor>, fixUrlNull: Option<string> -> Option<string>)
    ensures forall l :: l in MapNotNull(DownloadOf(fixUrlNull), anchors) ==>
              !l.isM3u8 && l.referer == MainUrl && IsDirectFile(l.url)
  {
    if |anchors| > 0 {
      DownloadLinksShape(anchors[1..], fixUrlNull);
    }
  }

  /** A link is reported exactly when some anchor produces it. */
  lemma DownloadPassMembers(anchors: seq<DownloadAnchor>, fixUrlNull: Option<string> -> Option<string>, l: ExtractorLink)
    ensures l in DownloadPass(anchors, fixUrlNull)
            <==> exists i :: 0 <= i < |anchors| && DownloadLink(anchors[i], fixUrlNull) == Some(l)
  {
    var f := DownloadOf(fixUrlNull);
    var links := MapNotNull(f, anchors);
    assert DownloadPass(anchors, fixUrlNull) == multiset(links);
    if l in links {
      var k :| 0 <= k < |links| && links[k] == l;
      var i :| 0 <= i < |anchors| && f(anchors[i]) == Some(links[k]);
      assert DownloadLink(anchors[i], fixUrlNull) == Some(l);
    }
    if exists i :: 0 <= i < |anchors| && DownloadLink(anchors[i], fixUrlNull) == Some(l) {
      var i :| 0 <= i < |anchors| && DownloadLink(anchors[i], fixUrlNull) == Some(l);
      assert f(anchors[i]) == Some(l);
    }
  }

  /** Anchors split across two parts of the page report the links of both
      parts, each link as often as the anchors produce it. */
  lemma DownloadPassAppend(a: seq<DownloadAnchor>, b: seq<DownloadAnchor>, fixUrlNull: Option<string> -> Option<string>)
    ensures DownloadPass(a + b, fixUrlNull) == DownloadPass(a, fixUrlNull) + DownloadPass(b, fixUrlNull)
  {
    var f := DownloadOf(fixUrlNull);
    MapNotNullAppend(f, a, b);
    assert multiset(MapNotNull(f, a) + MapNotNull(f, b)) == multiset(MapNotNull(f, a)) + multiset(MapNotNull(f, b));
  }

  /** A single anchor reports its link once when it yields one, and nothing
      otherwise. */
  lemma DownloadPassOne(a: DownloadAnchor, fixUrlNull: Option<string> -> Option<string>)
    ensures DownloadLink(a, fixUrlNull).None? ==> DownloadPass([a], fixUrlNull) == multiset{}
    ensures DownloadLink(a, fixUrlNull).Some? ==> DownloadPass([a], fixUrlNull) == multiset{DownloadLink(a, fixUrlNull).value}
  {
    var f := DownloadOf(fixUrlNull);
    assert [a][1..] == [];
    assert MapNotNull(f, [a]) == if f(a).Some? then [f(a).value] else [];
  }

  /** Visiting the anchors in any order reports the same links. */
  lemma DownloadPassOrderFree(anchors: seq<DownloadAnchor>, shuffled: seq<DownloadAnchor>,
                              fixUrlNull: Option<string> -> Option<string>)
    requires multiset(anchors) == multiset(shuffled)
    ensures DownloadPass(anchors, fixUrlNull) == DownloadPass(shuffled, fixUrlNull)
  {
    MapNotNullPermutation(DownloadOf(fixUrlNull), anchors, shuffled);
  }

  // ---------------------------------------------------------------------
  // Inline player script

  /** The script the pass scans mentions `sources` or `file`. */
  predicate MentionsSources(html: string): (r: bool)
    ensures r <==> exists j :: RegionMatches(html, j, "sources", false) || RegionMatches(html, j, "file", false)
  {
    Contains(html, "sources", false) || Contains(html, "file", false)
  }

  /** The first script mentioning `sources` or `file`, if any. */
  function ScriptData(scripts: seq<string>): (r: Option<string>)
    ensures r.Some? ==> exists i :: 0 <= i < |scripts| && scripts[i] == r.value
                          && MentionsSources(scripts[i])
                          && forall k :: 0 <= k < i ==> !MentionsSources(scripts[k])
    ensures r.None? <==> forall k :: 0 <= k < |scripts| ==> !MentionsSources(scripts[k])
  {
    match FirstIndex(MentionsSources, scripts)
    case None => None
    case Some(i) => Some(scripts[i])
  }

  /** A captured URL is reported only when it names an HLS playlist or an
      MP4 file; it is a playlist exactly when it mentions `.m3u8`. */
  function ScriptLink(url: string): (r: Option<ExtractorLink>)
    ensures r.Some? <==> |url| > 0 && (Contains(url, ".m3u8", false) || Contains(url, ".mp4", false))
    ensures r.Some? ==> && r.value.url == url
                        && r.value.source == Name && r.value.name == Name
                        && r.value.referer == MainUrl
                        && r.value.quality == Unknown
                        && (r.value.isM3u8 <==> Contains(url, ".m3u8", false))
  {
    if |url| > 0 && (Contains(url, ".m3u8", false) || Contains(url, ".mp4", false)) then
      Some(ExtractorLink(Name, Name, url, MainUrl, Unknown, Contains(url, ".m3u8", false)))
    else None
  }

  /** The links a list of matches yields, in match order: the captured
      values that name a playlist or an MP4 file. */
  function MatchLinks(ms: seq<Match>): (r: seq<ExtractorLink>)
    ensures |r| <= |ms|
    ensures forall k :: 0 <= k < |r| ==> exists j :: 0 <= j < |ms| && ScriptLink(ms[j].value) == Some(r[k])
    ensures forall j :: 0 <= j < |ms| && ScriptLink(ms[j].value).Some? ==> ScriptLink(ms[j].value).value in r
  {
    var f := (m: Match) => ScriptLink(m.value);
    var r := MapNotNull(f, ms);
    assert forall k :: 0 <= k < |r| ==> exists j :: 0 <= j < |ms| && f(ms[j]) == Some(r[k]);
    r
  }

  /** Matches earlier in the script give links earlier in the list. */
  lemma MatchLinksAppend(a: seq<Match>, b: seq<Match>)
    ensures MatchLinks(a + b) == MatchLinks(a) + MatchLinks(b)
  {
    MapNotNullAppend((m: Match) => ScriptLink(m.value), a, b);
  }

  /** One match gives its link when its value names a playlist or an MP4
      file, and nothing otherwise. */
  lemma MatchLinksOne(m: Match)
    ensures ScriptLink(m.value).None? ==> MatchLinks([m]) == []
    ensures ScriptLink(m.value).Some? ==> MatchLinks([m]) == [ScriptLink(m.value).value]
  {
    var f := (x: Match) => ScriptLink(x.value);
    assert [m][1..] == [];
    assert MapNotNull(f, [m]) == if f(m).Some? then [f(m).value] else [];
  }

  /** The links one script yields: the captured values of the pattern's
      matches, left to right, that name a playlist or an MP4 file. Every link
      comes from a match, and every match whose value qualifies gives one. */
  function ScriptLinks(script: string): (r: seq<ExtractorLink>)
    ensures |r| <= |FindAll(script, 0)|
    ensures forall k :: 0 <= k < |r| ==>
              exists j :: 0 <= j < |FindAll(script, 0)| && ScriptLink(FindAll(script, 0)[j].value) == Some(r[k])
    ensures forall j :: 0 <= j < |FindAll(script, 0)| && ScriptLink(FindAll(script, 0)[j].value).Some? ==>
              ScriptLink(FindAll(script, 0)[j].value).value in r
    ensures forall k :: 0 <= k < |r| ==>
              r[k].quality == Unknown && r[k].referer == MainUrl && |r[k].url| > 0
              && (Contains(r[k].url, ".m3u8", false) || Contains(r[k].url, ".mp4", false))
              && (r[k].isM3u8 <==> Contains(r[k].url, ".m3u8", false))
    ensures r == MatchLinks(FindAll(script, 0))
  {
    MatchLinks(FindAll(script, 0))
  }

  /** The script pass: only the first script mentioning `sources` or `file`
      is scanned; without one the pass reports nothing. */
  function ScriptPass(scripts: seq<string>): (r: seq<ExtractorLink>)
    ensures (forall k :: 0 <= k < |scripts| ==> !MentionsSources(scripts[k])) ==> r == []
    ensures ScriptData(scripts).Some? ==> r == ScriptLinks(ScriptData(scripts).value)
  {
    match ScriptData(scripts)
    case None => []
    case Some(script) => ScriptLinks(script)
  }

  /** The parts of an episode page that `loadLinks` reads: the download
      anchors and the inline scripts, in document order. */
  datatype LinksPage = LinksPage(downloadAnchors: seq<DownloadAnchor>, scripts: seq<string>)

  /** What `loadLinks` hands to the link callback: first the download links,
      in no fixed order, then the script links in order. It always reports
      the request as handled. */
  datatype LinksResult = LinksResult(direct: multiset<ExtractorLink>, scripted: seq<ExtractorLink>, handled: bool)

  function LoadLinks(page: LinksPage, fixUrlNull: Option<string> -> Option<string>): (r: LinksResult)
    ensures r.handled
    ensures r.direct == DownloadPass(page.downloadAnchors, fixUrlNull)
    ensures r.scripted == ScriptPass(page.scripts)
    ensures forall l :: l in r.direct ==> !l.isM3u8 && IsDirectFile(l.url)
    ensures forall k :: 0 <= k < |r.scripted| ==> r.scripted[k].quality == Unknown
  {
    LinksResult(DownloadPass(page.downloadAnchors, fixUrlNull), ScriptPass(page.scripts), true)
  }

  // ---------------------------------------------------------------------
  // Scenarios

  /** A download anchor for an `.mkv` file labelled "720p" yields one plain
      720p link named after its label. */
  lemma DownloadScenario(fixUrlNull: Option<string> -> Option<string>)
    requires fixUrlNull(Some(MainUrl + "/movie-720p.mkv")) == Some(MainUrl + "/movie-720p.mkv")
    ensures DownloadPass([DownloadAnchor(MainUrl + "/movie-720p.mkv", "720p")], fixUrlNull)
            == multiset{ExtractorLink(Name, Name + " - " + "720", MainUrl + "/movie-720p.mkv", MainUrl, P720, false)}
  {
    MkvIsDirect(MainUrl + "/movie-720p.mkv");
    Download720(MainUrl + "/movie-720p.mkv", fixUrlNull);
  }

  /** Any direct file labelled "720p" yields exactly one 720p link. */
  lemma Download720(url: string, fixUrlNull: Option<string> -> Option<string>)
    requires IsDirectFile(url) && fixUrlNull(Some(url)) == Some(url)
    ensures DownloadPass([DownloadAnchor(url, "720p")], fixUrlNull)
            == multiset{ExtractorLink(Name, Name + " - " + "720", url, MainUrl, P720, false)}
  {
    Classify720();
    LabelExamples();
    var a := DownloadAnchor(url, "720p");
    var l := ExtractorLink(Name, Name + " - " + "720", url, MainUrl, P720, false);
    var r := DownloadLink(a, fixUrlNull);
    assert r.Some?;
    assert r.value.name == Name + " - " + QualityLabel(a.text);
    assert QualityLabel(a.text) == "720";
    assert r.value == l;
    assert MapNotNull(DownloadOf(fixUrlNull), [a]) == [l];
  }

  lemma MkvIsDirect(url: string)
    requires url == MainUrl + "/movie-720p.mkv"
    ensures IsDirectFile(url)
  {
    assert RegionMatches(url, 31, ".mkv", false);
  }

  /** A player script whose quoted `file` key names an HLS playlist yields
      one playlist link of unknown quality. */
  lemma ScriptScenario()
    ensures ScriptPass(["\"file\":\"v.m3u8\""])
            == [ExtractorLink(Name, Name, "v.m3u8", MainUrl, Unknown, true)]
  {
    var s := "\"file\":\"v.m3u8\"";
    ScanPlaylistExample();
    ScriptDataExample();
    PlaylistLinkExample();
    MatchLinksOne(Match(1, "file", '"', "", "", '"', "v.m3u8"));
  }

  /** A player script whose `file` key is not quoted, as many player
      configurations write it, yields no link: the pattern needs a quote
      right after the key. */
  lemma UnquotedScriptScenario()
    ensures ScriptPass(["file: \"v.m3u8\""]) == []
  {
    var s := "file: \"v.m3u8\"";
    UnquotedNoMatch();
    assert FindAll(s, 0) == [];
    assert RegionMatches(s, 0, "file", false);
    assert ScriptData([s]) == Some(s);
    assert MatchLinks([]) == [];
  }

  lemma UnquotedNoMatch()
    ensures FindFrom("file: \"v.m3u8\"", 0).None?
  {
    var s := "file: \"v.m3u8\"";
    forall p: nat
      ensures MatchAt(s, p).None?
    {
      UnquotedNoMatchAt(p);
    }
    assert NoMatchFrom(s, 0);
  }

  lemma UnquotedNoMatchAt(p: nat)
    ensures MatchAt("file: \"v.m3u8\"", p).None?
  {
    var s := "file: \"v.m3u8\"";
    if p == 0 {
      assert s[..4] == "file" && s[4] == ':';
      UnquotedKey(s, 0, "file");
    } else {
      NoKeyAfterStart(p);
    }
  }

  lemma NoKeyAfterStart(p: nat)
    requires 0 < p
    ensures !StartsAt("file: \"v.m3u8\"", p, "file") && !StartsAt("file: \"v.m3u8\"", p, "url")
  {
    var s := "file: \"v.m3u8\"";
    StartsAtFirst(s, p, "file");
    StartsAtFirst(s, p, "url");
    if p == 11 {
      assert s[11..14][1] == '8';
    }
  }

  lemma PlaylistLinkExample()
    ensures ScriptLink("v.m3u8") == Some(ExtractorLink(Name, Name, "v.m3u8", MainUrl, Unknown, true))
  {
    assert "v.m3u8"[1..6] == ".m3u8";
    SliceMatches("v.m3u8", 1, ".m3u8");
  }

  lemma ScanPlaylistExample()
    ensures FindAll("\"file\":\"v.m3u8\"", 0) == [Match(1, "file", '"', "", "", '"', "v.m3u8")]
  {
    var s := "\"file\":\"v.m3u8\"";
    var m := Match(1, "file", '"', "", "", '"', "v.m3u8");
    PlaylistFirstMatch();
    PlaylistNoMore();
    assert m.End() == 14;
    ScanSingle(s, 0, m);
    ScanUnique(s, 0, FindAll(s, 0), [m]);
  }

  lemma PlaylistFirstMatch()
    ensures FindFrom("\"file\":\"v.m3u8\"", 0) == Some(Match(1, "file", '"', "", "", '"', "v.m3u8"))
  {
    var s := "\"file\":\"v.m3u8\"";
    var m := Match(1, "file", '"', "", "", '"', "v.m3u8");
    assert m.KeyEnd() == 5 && m.Colon() == 6 && m.ValueQuote() == 7 && m.End() == 14;
    assert s[1..5] == "file" && s[8..14] == "v.m3u8";
    assert MatchesIn(s, m);
    MatchAtComplete(s, m);
    StartsAtFirst(s, 0, "file");
    StartsAtFirst(s, 0, "url");
    FindFromSkip(s, 0);
    FindFromHere(s, 1, m);
  }

  lemma PlaylistNoMore()
    ensures FindFrom("\"file\":\"v.m3u8\"", 14).None?
  {
    var s := "\"file\":\"v.m3u8\"";
    StartsAtFirst(s, 14, "file");
    StartsAtFirst(s, 14, "url");
    FindFromSkip(s, 14);
    FindFromSkip(s, 15);
  }

  lemma ScriptDataExample()
    ensures ScriptData(["\"file\":\"v.m3u8\""]) == Some("\"file\":\"v.m3u8\"")
  {
    assert RegionMatches("\"file\":\"v.m3u8\"", 1, "file", false);
  }

  /** A captured value that names neither a playlist nor an MP4 file, such
      as an embed path, is dropped. */
  lemma EmbedPathIsDropped()
    ensures ScriptLink("/embed/42").None?
  {
    AbsentFirstChar("/embed/42", ".m3u8");
    AbsentFirstChar("/embed/42", ".mp4");
  }
}
