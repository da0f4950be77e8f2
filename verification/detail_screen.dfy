/** The decisions the show detail screen makes: which past episode to
    offer, where to scroll, the watchlist toggle and the URL an episode
    click plays. */
module DetailScreen {
  import opened Nullable
  import opened Seqs
  import opened Models
  import opened LocalStorage
  import opened Text
  import opened WebFallback
  import NetworkModels
  import AppRepository

  /** The rows above the first episode row: backdrop, info, "Episodes" header. */
  const HeaderRows: nat := 3

  /** The show's entries of the watch history, in history order. */
  function ShowHistory(history: seq<Episode>, movieId: string): (r: seq<Episode>)
    ensures forall i :: 0 <= i < |r| ==> r[i] in history && r[i].movieId == movieId
    ensures forall i :: 0 <= i < |history| && history[i].movieId == movieId ==> history[i] in r
  {
    var keep := (e: Episode) => e.movieId == movieId;
    Filter(history, keep)
  }
  /** Every copy of the show's entries, and nothing else. */
  lemma ShowHistoryCounts(history: seq<Episode>, movieId: string)
    ensures forall e :: multiset(ShowHistory(history, movieId))[e] ==
              if e.movieId == movieId then multiset(history)[e] else 0
  {
    FilterCounts(history, (e: Episode) => e.movieId == movieId);
  }


  /** The show's entries stay in history order, most recent first. */
  lemma ShowHistoryKeepsOrder(history: seq<Episode>, movieId: string)
    ensures IsSubsequence(ShowHistory(history, movieId), history)
  {
    var keep := (e: Episode) => e.movieId == movieId;
    FilterIsSubsequence(history, keep);
  }

  /** With one entry per show in the stored history, a show has at most
      one past episode to resume. */
  lemma ShowHistoryOfWellFormedIsSingle(history: seq<Episode>, movieId: string)
    requires WellFormedHistory(history)
    ensures |ShowHistory(history, movieId)| <= 1
  {
    var r := ShowHistory(history, movieId);
    ShowHistoryKeepsOrder(history, movieId);
    SubsequenceKeepsUnique(r, history, ShowKey);
    if |r| > 1 {
      assert false;
    }
  }

  /** The episode the detail screen offers to continue: the show's most
      recent history entry, else its last listed episode; nothing when the
      show lists no episodes. */
  function ResumeTarget(showHistory: seq<Episode>, episodes: seq<Episode>): (t: Option<Episode>)
    ensures |episodes| == 0 ==> t.None?
    ensures |episodes| > 0 && |showHistory| > 0 ==> t == Some(showHistory[0])
    ensures |episodes| > 0 && |showHistory| == 0 ==> t == Some(episodes[|episodes| - 1])
  {
    if |episodes| == 0 then None
    else if |showHistory| > 0 then Some(showHistory[0])
    else Some(episodes[|episodes| - 1])
  }

  /** `navigateToTargetEpisode()`: the list row to scroll to, or `None`
      when there is nothing to scroll to. */
  function ScrollRow(showHistory: seq<Episode>, episodes: seq<Episode>): (row: Option<nat>)
    ensures row.Some? ==>
      && ResumeTarget(showHistory, episodes).Some?
      && var t := ResumeTarget(showHistory, episodes).value;
      && HeaderRows <= row.value < |episodes| + HeaderRows
      && IsFirstWithId(episodes, row.value - HeaderRows, t.id)
    ensures row.None? <==>
      ResumeTarget(showHistory, episodes).None? ||
      forall j :: 0 <= j < |episodes| ==> episodes[j].id != ResumeTarget(showHistory, episodes).value.id
  {
    match ResumeTarget(showHistory, episodes)
    case None => None
    case Some(t) =>
      var index := IndexOfEpisode(episodes, t.id);
      if index == -1 then None else Some(index + HeaderRows)
  }

  /** A show never watched scrolls to its last row, the first episode
      (the list runs newest first). */
  lemma UnwatchedScrollsToLastRow(episodes: seq<Episode>)
    requires |episodes| > 0
    requires UniqueBy(episodes, EpisodeKey)
    ensures ScrollRow([], episodes) == Some(|episodes| - 1 + HeaderRows)
  {
    var last := |episodes| - 1;
    var row := ScrollRow([], episodes);
    assert row.Some? by {
      assert episodes[last].id == ResumeTarget([], episodes).value.id;
    }
    var k := row.value - HeaderRows;
    assert EpisodeKey(episodes[k]) == EpisodeKey(episodes[last]);
  }

  /** The state after the watchlist button: the stored list and the
      button's flag. */
  datatype Toggled = Toggled(prefs: Prefs, isWatchlisted: bool)

  /** The watchlist button: remove when the flag says listed, save otherwise. */
  function ToggleWatchlist(p: Prefs, isWatchlisted: bool, movie: Movie): (r: Toggled)
    ensures r.isWatchlisted == !isWatchlisted
    ensures r.prefs.history == p.history
  {
    if isWatchlisted then Toggled(RemoveFromWatchlist(p, movie.id), false)
    else Toggled(SaveToWatchlist(p, movie), true)
  }

  /** Whatever the flag said before, after a press it agrees with the store. */
  lemma ToggleAgreesWithStore(p: Prefs, isWatchlisted: bool, movie: Movie)
    ensures var r := ToggleWatchlist(p, isWatchlisted, movie);
      r.isWatchlisted <==> IsWatchlisted(r.prefs, movie.id)
  {
  }

  /** Two presses starting from an agreeing flag leave the movie's
      membership as it was. */
  lemma ToggleTwiceRestoresMembership(p: Prefs, movie: Movie)
    ensures var once := ToggleWatchlist(p, IsWatchlisted(p, movie.id), movie);
      var twice := ToggleWatchlist(once.prefs, once.isWatchlisted, movie);
      twice.isWatchlisted == IsWatchlisted(p, movie.id) &&
      (IsWatchlisted(twice.prefs, movie.id) <==> IsWatchlisted(p, movie.id))
  {
  }

  /** The URL an episode click plays: the stream URL when the API gave a
      non-empty one, else the site's page for the episode. */
  function EpisodeClickUrl(streamUrl: string, movie: Movie, episode: Episode): (url: string)
    ensures streamUrl != "" ==> url == streamUrl
    ensures streamUrl == "" ==> url == WebFallbackUrl(movie.title, episode.number, movie.id, episode.id)
  {
    if streamUrl != "" then streamUrl
    else WebFallbackUrl(movie.title, episode.number, movie.id, episode.id)
  }

  /** Wired to the stream call: the site's page, which the player opens in
      web mode, is played exactly when the call failed or the response's
      winning field is empty; otherwise the player gets that field verbatim. */
  lemma ClickFallsBackWithoutStream(response: AppRepository.Outcome<NetworkModels.StreamResponse>,
                                    movie: Movie, episode: Episode)
    ensures var url := EpisodeClickUrl(AppRepository.GetStreamUrl(response), movie, episode);
      && (response.Failed? || response.value.Url() == "" ==>
            url == WebFallbackUrl(movie.title, episode.number, movie.id, episode.id) && Contains(url, "kisskh.co"))
      && (response.Success? && response.value.Url() != "" ==> url == response.value.Url())
  {
    WebFallbackUrlIsWeb(movie.title, episode.number, movie.id, episode.id);
  }

  /** A click always yields something to play. */
  lemma EpisodeClickUrlNonEmpty(streamUrl: string, movie: Movie, episode: Episode)
    ensures EpisodeClickUrl(streamUrl, movie, episode) != ""
  {
    if streamUrl == "" {
      assert |WebFallbackUrl(movie.title, episode.number, movie.id, episode.id)| >= |PagePrefix|;
    }
  }
}
