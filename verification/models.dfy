/** The app's records: a catalog show (`Movie`) and one of its episodes
    (`Episode`), which doubles as a watch-history entry. */
module Models {
  import opened Nullable

  /** A show. `rating` is a Kotlin `Float`, modelled as a real. */
  datatype Movie = Movie(
    id: string,
    title: string,
    description: string,
    posterUrl: string,
    bannerUrl: string,
    genre: seq<string>,
    year: int,
    country: string,
    rating: real,
    status: string)

  /** An episode; `timestamp` and `duration` are `Long`s in one shared
      unit (seconds, as the player writes them), `movieTitle` caches the
      show's title for the history list. */
  datatype Episode = Episode(
    id: string,
    movieId: string,
    number: string,
    title: string,
    videoUrl: string,
    thumbnailUrl: Option<string>,
    timestamp: int,
    duration: int,
    movieTitle: Option<string>)

  /** A named row of shows. */
  datatype Category = Category(id: string, name: string, movies: seq<Movie>)

  /** The constructor call `Episode(id, movieId, number, title, videoUrl)`
      that leaves every defaulted parameter at its default. */
  function NewEpisode(id: string, movieId: string, number: string, title: string, videoUrl: string): (e: Episode)
    ensures e.id == id && e.movieId == movieId && e.number == number
    ensures e.title == title && e.videoUrl == videoUrl
    ensures e.thumbnailUrl == None
    ensures e.timestamp == 0
    ensures e.duration == 0
    ensures e.movieTitle == None
  {
    Episode(id, movieId, number, title, videoUrl, None, 0, 0, None)
  }

  /** Key functions, for uniqueness statements. */
  function MovieKey(m: Movie): string { m.id }
  function EpisodeKey(e: Episode): string { e.id }
  function ShowKey(e: Episode): string { e.movieId }
}
