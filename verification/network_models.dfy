/** The JSON shapes the catalog API answers with. */
module NetworkModels {
  import opened Nullable
  import opened Numeric

  /** One search hit; every field may be missing. */
  datatype SearchItem = SearchItem(id: Option<Int32>, title: Option<string>, image: Option<string>)

  /** One episode of a show's detail page; `number` is a `Float`. */
  datatype EpisodeItem = EpisodeItem(id: Int32, number: real, sub: Option<Int32>)

  /** A show's detail page. */
  datatype DramaDetailResponse = DramaDetailResponse(
    id: Int32,
    title: string,
    description: Option<string>,
    image: Option<string>,
    country: Option<string>,
    status: Option<string>,
    episodes: Option<seq<EpisodeItem>>)

  /** The stream lookup: the server spells the URL field three ways. */
  datatype StreamResponse = StreamResponse(
    videoUpper: Option<string>,   // "Video"
    videoLower: Option<string>,   // "video"
    urlAlt: Option<string>,       // "url"
    kind: Option<string>)         // "Type"
  {
    /** The `url` getter: `Video ?: video ?: url ?: ""`. A present field
        wins even when it is the empty string. */
    function Url(): (u: string)
      ensures videoUpper.Some? ==> u == videoUpper.value
      ensures videoUpper.None? && videoLower.Some? ==> u == videoLower.value
      ensures videoUpper.None? && videoLower.None? && urlAlt.Some? ==> u == urlAlt.value
      ensures videoUpper.None? && videoLower.None? && urlAlt.None? ==> u == ""
      ensures Some(u) == videoUpper || Some(u) == videoLower || Some(u) == urlAlt || u == ""
    {
      videoUpper.OrElse(videoLower).OrElse(urlAlt).GetOr("")
    }
  }
}
