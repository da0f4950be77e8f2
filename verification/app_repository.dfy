/** The mapping from catalog answers to the app's records, including what
    each call yields when the request throws. The HTTP calls themselves are
    inputs: each is an `Outcome` that either carries the decoded answer or
    the exception. */
module AppRepository {
  import opened Nullable
  import opened Numeric
  import opened Text
  import opened Seqs
  import opened Models
  import opened NetworkModels

  /** A caught exception: `message`, `toString()` and the stack trace text. */
  datatype Failure = Failure(message: Option<string>, text: string, stackTrace: string)

  /** The result of an API call inside `try { … } catch (e: Exception) { … }`. */
  datatype Outcome<T> = Success(value: T) | Failed(error: Failure)

  /** Id of the single movie `searchMovies` returns when the call fails. */
  const ErrorMovieId: string := "error"

  /** The `Movie` a search hit maps to. */
  function MovieFromSearchItem(item: SearchItem): (m: Movie)
    ensures item.id.Some? ==> m.id == IntToString(item.id.value)
    ensures item.id.None? ==> m.id == "0"
    ensures item.title.Some? ==> m.title == item.title.value
    ensures item.title.None? ==> m.title == "Unknown Title"
    ensures m.posterUrl == m.bannerUrl == item.image.GetOr("")
    ensures m.description == "" && m.genre == [] && m.year == 0
    ensures m.country == "" && m.rating == 0.0 && m.status == ""
  {
    Movie(
      id := if item.id.Some? then IntToString(item.id.value) else "0",
      title := item.title.GetOr("Unknown Title"),
      description := "",
      posterUrl := item.image.GetOr(""),
      bannerUrl := item.image.GetOr(""),
      genre := [],
      year := 0,
      country := "",
      rating := 0.0,
      status := "")
  }

  /** `searchMovies(query)`: one movie per hit, in order; on failure a
      single sentinel movie whose id is "error" and whose title carries
      the exception message. */
  function SearchMovies(response: Outcome<seq<SearchItem>>): (r: seq<Movie>)
    ensures response.Success? ==> |r| == |response.value|
    ensures response.Success? ==>
      forall i :: 0 <= i < |r| ==> r[i] == MovieFromSearchItem(response.value[i])
    ensures response.Failed? ==> |r| == 1 && r[0].id == ErrorMovieId
    ensures response.Failed? ==>
      r[0].title == "Err: " + response.error.message.GetOr(response.error.text) &&
      r[0].description == response.error.stackTrace
  {
    match response
    case Success(items) => seq(|items|, i requires 0 <= i < |items| => MovieFromSearchItem(items[i]))
    case Failed(e) =>
      [Movie(ErrorMovieId, "Err: " + e.message.GetOr(e.text), e.stackTrace, "", "", [], 0, "", 0.0, "")]
  }

  /** No real search hit can be mistaken for the failure sentinel: its id
      is "0" or a printed integer, never "error". */
  lemma SearchHitsAreNotTheSentinel(items: seq<SearchItem>)
    ensures forall m :: m in SearchMovies(Success(items)) ==> m.id != ErrorMovieId
  {
    forall m | m in SearchMovies(Success(items))
      ensures m.id != ErrorMovieId
    {
      var i :| 0 <= i < |items| && SearchMovies(Success(items))[i] == m;
      if items[i].id.Some? {
        var n := items[i].id.value;
        assert m.id[0] == '-' || IsDigit(m.id[0]);
      }
    }
  }

  /** `getMovieDetails(id)`: the show with absent fields defaulted, or
      `null` when the call fails. */
  function GetMovieDetails(response: Outcome<DramaDetailResponse>): (r: Option<Movie>)
    ensures response.Failed? <==> r.None?
    ensures response.Success? ==>
      var d := response.value;
      && r.value.id == IntToString(d.id)
      && r.value.title == d.title
      && (d.description.Some? ==> r.value.description == d.description.value)
      && (d.description.None? ==> r.value.description == "No description available.")
      && r.value.posterUrl == r.value.bannerUrl == d.image.GetOr("")
      && r.value.country == d.country.GetOr("")
      && r.value.status == d.status.GetOr("")
      && r.value.genre == [] && r.value.year == 0 && r.value.rating == 0.0
  {
    match response
    case Success(d) =>
      Some(Movie(
        id := IntToString(d.id),
        title := d.title,
        description := d.description.GetOr("No description available."),
        posterUrl := d.image.GetOr(""),
        bannerUrl := d.image.GetOr(""),
        genre := [],
        year := 0,
        country := d.country.GetOr(""),
        rating := 0.0,
        status := d.status.GetOr("")))
    case Failed(_) => None
  }

  /** The `Episode` an upstream episode maps to; `floatText` is Kotlin's
      `Float.toString`. */
  function EpisodeFromItem(movieId: string, item: EpisodeItem, floatText: real -> string): (e: Episode)
    ensures e.id == IntToString(item.id)
    ensures e.movieId == movieId
    ensures e.number == floatText(item.number)
    ensures e.title == "Episode " + e.number
    ensures e.videoUrl == ""
    ensures e.thumbnailUrl.None? && e.timestamp == 0 && e.duration == 0 && e.movieTitle.None?
  {
    NewEpisode(IntToString(item.id), movieId, floatText(item.number), "Episode " + floatText(item.number), "")
  }

  /** `getEpisodes(movieId)`: one episode per upstream item, in order, all
      tagged with the requested show; empty when the list is missing or the
      call fails. */
  function GetEpisodes(movieId: string, response: Outcome<DramaDetailResponse>,
                       floatText: real -> string): (r: seq<Episode>)
    ensures response.Failed? ==> r == []
    ensures response.Success? && response.value.episodes.None? ==> r == []
    ensures response.Success? && response.value.episodes.Some? ==>
      var items := response.value.episodes.value;
      && |r| == |items|
      && forall i :: 0 <= i < |r| ==> r[i] == EpisodeFromItem(movieId, items[i], floatText)
  {
    match response
    case Success(d) =>
      (match d.episodes
       case Some(items) =>
         seq(|items|, i requires 0 <= i < |items| => EpisodeFromItem(movieId, items[i], floatText))
       case None => [])
    case Failed(_) => []
  }

  /** Distinct upstream episode ids give distinct episode ids, because
      printing an `Int` is injective. */
  lemma GetEpisodesKeepsIdsDistinct(movieId: string, items: seq<EpisodeItem>, floatText: real -> string,
                                    d: DramaDetailResponse)
    requires d.episodes == Some(items)
    requires forall i, j :: 0 <= i < j < |items| ==> items[i].id != items[j].id
    ensures UniqueBy(GetEpisodes(movieId, Success(d), floatText), EpisodeKey)
  {
    var r := GetEpisodes(movieId, Success(d), floatText);
    forall i, j | 0 <= i < j < |r|
      ensures EpisodeKey(r[i]) != EpisodeKey(r[j])
    {
      ParseIntRoundTrip(items[i].id);
      ParseIntRoundTrip(items[j].id);
    }
  }

  /** `getStreamUrl(episodeId)`: the response's `url`, or "" when the call fails. */
  function GetStreamUrl(response: Outcome<StreamResponse>): (u: string)
    ensures response.Failed? ==> u == ""
    ensures response.Success? ==> u == response.value.Url()
  {
    match response
    case Success(s) => s.Url()
    case Failed(_) => ""
  }
}
