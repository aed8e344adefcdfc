/** The host application's data shapes that the provider fills in. Only the
    fields the provider sets are modelled; the host's builders
    (`newAnimeSearchResponse`, `newAnimeLoadResponse`, `addSub`,
    `addEpisodes`) become plain record construction. */
module Cloudstream {

  import opened Wrappers

  /** The kinds of title the provider reports. */
  datatype TvType = Anime | AnimeMovie | OVA

  datatype ShowStatus = Ongoing | Completed

  /** The quality tiers the provider can assign to a link. */
  datatype Qualities = Unknown | P360 | P480 | P720 | P1080

  /** A playable link handed to the host's link callback. */
  datatype ExtractorLink = ExtractorLink(
    source: string,
    name: string,
    url: string,
    referer: string,
    quality: Qualities,
    isM3u8: bool)

  /** A catalog or search entry; `subEpisodes` is what `addSub` records. */
  datatype AnimeSearchResponse = AnimeSearchResponse(
    name: string,
    url: string,
    kind: TvType,
    posterUrl: Option<string>,
    subEpisodes: Option<int>)

  datatype Episode = Episode(
    data: string,
    name: Option<string>,
    episode: Option<int>,
    posterUrl: Option<string>,
    date: Option<string>)

  /** The detail page; `subbedEpisodes` is the list given to
      `addEpisodes(DubStatus.Subbed, …)`. */
  datatype AnimeLoadResponse = AnimeLoadResponse(
    name: string,
    url: string,
    kind: TvType,
    engName: string,
    posterUrl: Option<string>,
    year: Option<int>,
    subbedEpisodes: seq<Episode>,
    showStatus: Option<ShowStatus>,
    plot: Option<string>,
    tags: seq<string>,
    rating: Option<int>,
    duration: Option<string>,
    recommendations: seq<AnimeSearchResponse>)

  /** One row of the home page: the URL prefix to which the page number is
      appended, and its label. */
  datatype MainPageRequest = MainPageRequest(data: string, name: string)

  datatype HomePageResponse = HomePageResponse(name: string, list: seq<AnimeSearchResponse>)
}
