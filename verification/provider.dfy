/** The provider's fixed configuration. */
module Provider {

  import opened Cloudstream

  const MainUrl: string := "https://alqanime.net"
  const Name: string := "AlQanime"
  const Lang: string := "id"

  const SupportedTypes: set<TvType> := {Anime, AnimeMovie, OVA}

  /** The home page rows, in display order. */
  const MainPage: seq<MainPageRequest> := [
    MainPageRequest(MainUrl + "/page/", "Anime Terbaru"),
    MainPageRequest(MainUrl + "/ongoing-anime/page/", "Sedang Tayang"),
    MainPageRequest(MainUrl + "/complete-anime/page/", "Selesai"),
    MainPageRequest(MainUrl + "/movies/page/", "Movie")
  ]
}
