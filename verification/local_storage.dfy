/** The local watch-state store: a watchlist of shows and a watch history
    of episodes, each kept as one JSON list under its own preferences key.

    The preferences file and the JSON codec are abstracted to a `Slot` per
    key: nothing written yet, a payload the codec rejects, or a decoded
    list. Every operation reads the whole list, edits it and, when the
    source writes, stores the whole list back. */
module LocalStorage {
  import opened Nullable
  import opened Seqs
  import opened Models

  /** History never grows past this many entries through `AddToHistory`. */
  const HistoryLimit: nat := 50

  /** What reading one key yields. */
  datatype Slot<T> =
    | Absent                // key never written: the "[]" default
    | Undecodable           // stored text the codec cannot parse
    | Stored(items: seq<T>) // a successfully decoded list

  /** The two keys "watchlist" and "history". */
  datatype Prefs = Prefs(watchlist: Slot<Movie>, history: Slot<Episode>)

  /** A fresh install. */
  const EmptyPrefs: Prefs := Prefs(Absent, Absent)

  /** Read a list; decoding failures are swallowed into the empty list. */
  function Decoded<T>(slot: Slot<T>): (r: seq<T>)
    ensures slot.Absent? ==> r == []
    ensures slot.Undecodable? ==> r == []
    ensures slot.Stored? ==> r == slot.items
  {
    match slot
    case Stored(items) => items
    case _ => []
  }

  /** `getWatchlist()` */
  function GetWatchlist(p: Prefs): (r: seq<Movie>)
    ensures !p.watchlist.Stored? ==> r == []
    ensures p.watchlist.Stored? ==> r == p.watchlist.items
  {
    Decoded(p.watchlist)
  }

  /** `getHistory()` */
  function GetHistory(p: Prefs): (r: seq<Episode>)
    ensures !p.history.Stored? ==> r == []
    ensures p.history.Stored? ==> r == p.history.items
  {
    Decoded(p.history)
  }

  // ---------------------------------------------------------------------
  // Watchlist

  /** Some watchlist entry has this id. */
  predicate HasMovie(list: seq<Movie>, id: string)
  {
    exists i :: 0 <= i < |list| && list[i].id == id
  }

  /** `isWatchlisted(movieId)`: whether the decoded watchlist holds an
      entry with this id; never for a missing or undecodable payload. */
  function IsWatchlisted(p: Prefs, id: string): (b: bool)
    ensures !p.watchlist.Stored? ==> !b
    ensures p.watchlist.Stored? ==>
      (b <==> exists i :: 0 <= i < |p.watchlist.items| && p.watchlist.items[i].id == id)
  {
    HasMovie(GetWatchlist(p), id)
  }

  /** The watchlist without any entry carrying this id. */
  function WithoutMovie(list: seq<Movie>, id: string): (r: seq<Movie>)
    ensures forall i :: 0 <= i < |r| ==> r[i] in list && r[i].id != id
    ensures forall i :: 0 <= i < |list| && list[i].id != id ==> list[i] in r
    ensures IsSubsequence(r, list)
    ensures HasMovie(list, id) <==> |r| < |list|
    ensures !HasMovie(list, id) ==> r == list
  {
    var keep := (m: Movie) => m.id != id;
    FilterIsSubsequence(list, keep);
    FilterFullLength(list, keep);
    if !HasMovie(list, id) then
      FilterKeepsAll(list, keep);
      Filter(list, keep)
    else
      Filter(list, keep)
  }
  /** Only entries with the id go; every copy of every other entry stays. */
  lemma WithoutMovieCounts(list: seq<Movie>, id: string)
    ensures forall m :: multiset(WithoutMovie(list, id))[m] == if m.id != id then multiset(list)[m] else 0
  {
    FilterCounts(list, (m: Movie) => m.id != id);
  }


  /** `saveToWatchlist(movie)`: a no-op (not even a write) when the id is
      already listed, otherwise the movie goes on top. */
  function SaveToWatchlist(p: Prefs, movie: Movie): (r: Prefs)
    ensures r.history == p.history
    ensures IsWatchlisted(p, movie.id) ==> r == p
    ensures !IsWatchlisted(p, movie.id) ==>
      r.watchlist.Stored? && GetWatchlist(r) == [movie] + GetWatchlist(p)
    ensures IsWatchlisted(r, movie.id)
    ensures UniqueBy(GetWatchlist(p), MovieKey) ==> UniqueBy(GetWatchlist(r), MovieKey)
  {
    var list := GetWatchlist(p);
    if HasMovie(list, movie.id) then p
    else
      var r := p.(watchlist := Stored([movie] + list));
      assert GetWatchlist(r)[0].id == movie.id;
      r
  }

  /** `removeFromWatchlist(movieId)`: drops every entry with that id and
      writes only if something was dropped. */
  function RemoveFromWatchlist(p: Prefs, id: string): (r: Prefs)
    ensures r.history == p.history
    ensures !IsWatchlisted(r, id)
    ensures !IsWatchlisted(p, id) ==> r == p
    ensures IsWatchlisted(p, id) ==> r.watchlist.Stored?
    ensures forall i :: 0 <= i < |GetWatchlist(p)| && GetWatchlist(p)[i].id != id ==>
      GetWatchlist(p)[i] in GetWatchlist(r)
    ensures IsSubsequence(GetWatchlist(r), GetWatchlist(p))
    ensures forall other :: other != id ==> (IsWatchlisted(r, other) <==> IsWatchlisted(p, other))
  {
    var list := GetWatchlist(p);
    var kept := WithoutMovie(list, id);
    if |kept| < |list| then p.(watchlist := Stored(kept)) else p
  }
  /** The stored list after removal has every copy of the other shows'
      entries and none with the id. */
  lemma RemoveFromWatchlistCounts(p: Prefs, id: string)
    ensures forall m :: multiset(GetWatchlist(RemoveFromWatchlist(p, id)))[m] ==
              if m.id != id then multiset(GetWatchlist(p))[m] else 0
  {
    WithoutMovieCounts(GetWatchlist(p), id);
  }


  /** Removing twice is removing once. */
  lemma RemoveFromWatchlistIdempotent(p: Prefs, id: string)
    ensures RemoveFromWatchlist(RemoveFromWatchlist(p, id), id) == RemoveFromWatchlist(p, id)
  {
  }

  /** A run of `saveToWatchlist` calls, oldest first. */
  function SaveAllToWatchlist(p: Prefs, movies: seq<Movie>): Prefs
    decreases |movies|
  {
    if |movies| == 0 then p
    else SaveAllToWatchlist(SaveToWatchlist(p, movies[0]), movies[1..])
  }

  /** Saving any sequence of shows never creates a duplicate id, leaves
      every saved id listed, and brings in nothing that was not saved. */
  lemma {:induction false} SaveAllToWatchlistUnique(p: Prefs, movies: seq<Movie>)
    requires UniqueBy(GetWatchlist(p), MovieKey)
    ensures UniqueBy(GetWatchlist(SaveAllToWatchlist(p, movies)), MovieKey)
    ensures forall i :: 0 <= i < |movies| ==> IsWatchlisted(SaveAllToWatchlist(p, movies), movies[i].id)
    ensures forall m :: m in GetWatchlist(SaveAllToWatchlist(p, movies)) ==>
      m in GetWatchlist(p) || m in movies
    decreases |movies|
  {
    if |movies| > 0 {
      var q := SaveToWatchlist(p, movies[0]);
      SaveAllToWatchlistUnique(q, movies[1..]);
      var r := SaveAllToWatchlist(q, movies[1..]);
      assert r == SaveAllToWatchlist(p, movies);
      SavedStaysListed(q, movies[1..], movies[0].id);
      forall i | 0 <= i < |movies|
        ensures IsWatchlisted(r, movies[i].id)
      {
        if i > 0 {
          assert movies[i] == movies[1..][i - 1];
        }
      }
      forall m | m in GetWatchlist(r)
        ensures m in GetWatchlist(p) || m in movies
      {
        if m in movies[1..] {
          assert m in movies;
        }
      }
    }
  }

  /** Saving never unlists anything. */
  lemma {:induction false} SavedStaysListed(p: Prefs, movies: seq<Movie>, id: string)
    requires IsWatchlisted(p, id)
    ensures IsWatchlisted(SaveAllToWatchlist(p, movies), id)
    decreases |movies|
  {
    if |movies| > 0 {
      var q := SaveToWatchlist(p, movies[0]);
      if !IsWatchlisted(p, movies[0].id) {
        var k :| 0 <= k < |GetWatchlist(p)| && GetWatchlist(p)[k].id == id;
        assert GetWatchlist(q)[k + 1].id == id;
      }
      SavedStaysListed(q, movies[1..], id);
    }
  }

  // ---------------------------------------------------------------------
  // History

  /** The history invariant: bounded, one entry per episode id and one
      entry per show. */
  predicate WellFormedHistory(h: seq<Episode>)
  {
    |h| <= HistoryLimit && UniqueBy(h, EpisodeKey) && UniqueBy(h, ShowKey)
  }

  /** `i` is the first position whose entry carries the id. */
  predicate IsFirstWithId(h: seq<Episode>, i: int, id: string)
  {
    0 <= i < |h| && h[i].id == id && forall j :: 0 <= j < i ==> h[j].id != id
  }

  /** The first position whose entry carries the id, or -1. */
  function IndexOfEpisode(h: seq<Episode>, id: string): (i: int)
    ensures i == -1 <==> forall k :: 0 <= k < |h| ==> h[k].id != id
    ensures i != -1 ==> IsFirstWithId(h, i, id)
  {
    IndexOfFirst(h, (x: Episode) => x.id == id)
  }

  /** The history without any entry carrying this episode id. */
  function WithoutEpisode(h: seq<Episode>, id: string): (r: seq<Episode>)
    ensures forall i :: 0 <= i < |r| ==> r[i] in h && r[i].id != id
    ensures forall i :: 0 <= i < |h| && h[i].id != id ==> h[i] in r
    ensures IsSubsequence(r, h)
    ensures |r| == |h| ==> r == h
    ensures (forall i :: 0 <= i < |h| ==> h[i].id != id) ==> r == h
  {
    var keep := (x: Episode) => x.id != id;
    FilterIsSubsequence(h, keep);
    FilterFullLength(h, keep);
    if forall i :: 0 <= i < |h| ==> h[i].id != id then
      FilterKeepsAll(h, keep);
      Filter(h, keep)
    else
      Filter(h, keep)
  }
  /** Only entries with the id go; every copy of every other entry stays. */
  lemma WithoutEpisodeCounts(h: seq<Episode>, id: string)
    ensures forall x :: multiset(WithoutEpisode(h, id))[x] == if x.id != id then multiset(h)[x] else 0
  {
    FilterCounts(h, (x: Episode) => x.id != id);
  }


  /** The history without any entry of this show. */
  function WithoutShow(h: seq<Episode>, movieId: string): (r: seq<Episode>)
    ensures forall i :: 0 <= i < |r| ==> r[i] in h && r[i].movieId != movieId
    ensures forall i :: 0 <= i < |h| && h[i].movieId != movieId ==> h[i] in r
    ensures IsSubsequence(r, h)
    ensures |r| == |h| ==> r == h
    ensures (forall i :: 0 <= i < |h| ==> h[i].movieId != movieId) ==> r == h
  {
    var keep := (x: Episode) => x.movieId != movieId;
    FilterIsSubsequence(h, keep);
    FilterFullLength(h, keep);
    if forall i :: 0 <= i < |h| ==> h[i].movieId != movieId then
      FilterKeepsAll(h, keep);
      Filter(h, keep)
    else
      Filter(h, keep)
  }
  /** Only the show's entries go; every copy of every other entry stays. */
  lemma WithoutShowCounts(h: seq<Episode>, movieId: string)
    ensures forall x :: multiset(WithoutShow(h, movieId))[x] == if x.movieId != movieId then multiset(h)[x] else 0
  {
    FilterCounts(h, (x: Episode) => x.movieId != movieId);
  }


  /** The history without the entries of `e`'s show that carry another
      episode id. */
  function WithoutOtherEpisodesOfShow(h: seq<Episode>, e: Episode): (r: seq<Episode>)
    ensures forall i :: 0 <= i < |r| ==> r[i] in h && (r[i].movieId != e.movieId || r[i].id == e.id)
    ensures forall i :: 0 <= i < |h| && (h[i].movieId != e.movieId || h[i].id == e.id) ==> h[i] in r
    ensures IsSubsequence(r, h)
    ensures |r| == |h| ==> r == h
    ensures (forall i :: 0 <= i < |h| ==> (h[i].movieId != e.movieId || h[i].id == e.id)) ==> r == h
  {
    var keep := (x: Episode) => !(x.movieId == e.movieId && x.id != e.id);
    FilterIsSubsequence(h, keep);
    FilterFullLength(h, keep);
    if forall i :: 0 <= i < |h| ==> (h[i].movieId != e.movieId || h[i].id == e.id) then
      FilterKeepsAll(h, keep);
      Filter(h, keep)
    else
      Filter(h, keep)
  }
  /** Only the show's entries with another id go; every copy of every
      other entry stays. */
  lemma WithoutOtherEpisodesOfShowCounts(h: seq<Episode>, e: Episode)
    ensures forall x :: multiset(WithoutOtherEpisodesOfShow(h, e))[x] ==
              if x.movieId != e.movieId || x.id == e.id then multiset(h)[x] else 0
  {
    FilterCounts(h, (x: Episode) => !(x.movieId == e.movieId && x.id != e.id));
  }


  /** Putting a key-distinct element in front keeps a list key-unique. */
  lemma ConsKeepsUnique<K>(x: Episode, rest: seq<Episode>, key: Episode -> K)
    requires UniqueBy(rest, key)
    requires forall i :: 0 <= i < |rest| ==> key(rest[i]) != key(x)
    ensures UniqueBy([x] + rest, key)
  {
    var s := [x] + rest;
    forall i, j | 0 <= i < j < |s|
      ensures key(s[i]) != key(s[j])
    {
      assert s[j] == rest[j - 1];
      if i > 0 {
        assert s[i] == rest[i - 1];
      }
    }
  }

  /** The facts about `[e] + kept`, capped, that `AddToHistory` and the
      fallback branch of `UpdateHistoryProgress` promise. */
  lemma {:induction false} PrependCappedFacts(h: seq<Episode>, e: Episode, kept: seq<Episode>)
    requires IsSubsequence(kept, h)
    requires forall i :: 0 <= i < |kept| ==> kept[i].id != e.id && kept[i].movieId != e.movieId
    ensures var h' := DropLastOver([e] + kept, HistoryLimit);
      && |h'| >= 1 && h'[0] == e
      && (forall i :: 1 <= i < |h'| ==> h'[i].id != e.id && h'[i].movieId != e.movieId)
      && IsSubsequence(h'[1..], h)
      && (|kept| <= |h| <= HistoryLimit ==> |h'| <= HistoryLimit)
      && (WellFormedHistory(h) ==> WellFormedHistory(h'))
  {
    var s := [e] + kept;
    var h' := DropLastOver(s, HistoryLimit);
    assert s[1..] == kept;
    if |s| > HistoryLimit {
      assert h'[1..] == kept[..|kept| - 1];
      SubsequencePrefix(kept, h, |kept| - 1);
    } else {
      assert h'[1..] == kept;
    }
    forall i | 1 <= i < |h'|
      ensures h'[i].id != e.id && h'[i].movieId != e.movieId
    {
      assert h'[i] == kept[i - 1];
    }
    if WellFormedHistory(h) {
      SubsequenceKeepsUnique(h'[1..], h, EpisodeKey);
      SubsequenceKeepsUnique(h'[1..], h, ShowKey);
      assert h' == [e] + h'[1..];
      ConsKeepsUnique(e, h'[1..], EpisodeKey);
      ConsKeepsUnique(e, h'[1..], ShowKey);
      SubsequenceLength(kept, h);
    }
  }

  lemma {:induction false} SubsequenceLength(r: seq<Episode>, xs: seq<Episode>)
    requires IsSubsequence(r, xs)
    ensures |r| <= |xs|
    decreases |xs|
  {
    if |r| > 0 {
      if r[0] == xs[0] && IsSubsequence(r[1..], xs[1..]) {
        SubsequenceLength(r[1..], xs[1..]);
      } else {
        SubsequenceLength(r, xs[1..]);
      }
    }
  }

  /** `addToHistory(episode)`: the episode goes on top, replacing any entry
      with its id and any other episode of its show; when that makes 51
      entries the last one is dropped. Always writes. */
  function AddToHistory(p: Prefs, e: Episode): (r: Prefs)
    ensures r.watchlist == p.watchlist
    ensures r.history.Stored?
    ensures var h, h' := GetHistory(p), GetHistory(r);
      && |h'| >= 1 && h'[0] == e
      && (forall i :: 1 <= i < |h'| ==> h'[i].id != e.id && h'[i].movieId != e.movieId)
      && IsSubsequence(h'[1..], h)
      && (|h| <= HistoryLimit ==> |h'| <= HistoryLimit)
      && (WellFormedHistory(h) ==> WellFormedHistory(h'))
  {
    var h := GetHistory(p);
    var a := WithoutEpisode(h, e.id);
    var b := WithoutOtherEpisodesOfShow(a, e);
    SubsequenceTransitive(b, a, h);
    SubsequenceLength(b, a);
    SubsequenceLength(a, h);
    PrependCappedFacts(h, e, b);
    p.(history := Stored(DropLastOver([e] + b, HistoryLimit)))
  }

  /** Only the oldest entry can be evicted: every entry but the last that
      shares neither id nor show with the new episode survives. */
  lemma AddToHistoryKeepsOthers(p: Prefs, e: Episode)
    requires |GetHistory(p)| <= HistoryLimit
    ensures var h, h' := GetHistory(p), GetHistory(AddToHistory(p, e));
      forall i :: 0 <= i < |h| - 1 && h[i].id != e.id && h[i].movieId != e.movieId ==> h[i] in h'
  {
    var h := GetHistory(p);
    var a := WithoutEpisode(h, e.id);
    var b := WithoutOtherEpisodesOfShow(a, e);
    var h' := GetHistory(AddToHistory(p, e));
    assert h' == DropLastOver([e] + b, HistoryLimit);
    SubsequenceLength(b, a);
    SubsequenceLength(a, h);
    if |[e] + b| > HistoryLimit {
      assert |a| == |h| && |b| == |a|;
      assert b == h;
      assert h' == [e] + h[..|h| - 1];
      forall i | 0 <= i < |h| - 1
        ensures h[i] in h'
      {
        assert h'[i + 1] == h[i];
      }
    } else {
      assert h' == [e] + b;
      forall i | 0 <= i < |h| && h[i].id != e.id && h[i].movieId != e.movieId
        ensures h[i] in h'
      {
        assert h[i] in a;
        assert h[i] in b;
      }
    }
  }

  /** The show title `updateHistoryProgress` keeps: the fallback episode's
      when it has one, else the stored entry's. */
  function MergedTitle(episode: Option<Episode>, prior: Episode): (t: Option<string>)
    ensures episode.Some? && episode.value.movieTitle.Some? ==> t == episode.value.movieTitle
    ensures episode.None? || episode.value.movieTitle.None? ==> t == prior.movieTitle
  {
    (if episode.Some? then episode.value.movieTitle else None).OrElse(prior.movieTitle)
  }

  /** The found-branch of `updateHistoryProgress`: the entry at `index`
      moves to the top with the new position, length and merged title; the
      other entries of its show go. */
  function ProgressedExisting(h: seq<Episode>, index: int, timestamp: int, duration: int,
                              episode: Option<Episode>): (h': seq<Episode>)
    requires 0 <= index < |h|
    ensures 1 <= |h'| <= |h|
    ensures h'[0].movieTitle == MergedTitle(episode, h[index])
    ensures h'[0] == h[index].(timestamp := timestamp, duration := duration, movieTitle := h'[0].movieTitle)
    ensures forall k :: 1 <= k < |h'| ==> h'[k].movieId != h[index].movieId
    ensures forall k :: 0 <= k < |h| && k != index && h[k].movieId != h[index].movieId ==> h[k] in h'
    ensures IsSubsequence(h'[1..], h)
    ensures WellFormedHistory(h) ==> WellFormedHistory(h')
  {
    var prior := h[index];
    var updated := prior.(timestamp := timestamp, duration := duration, movieTitle := MergedTitle(episode, prior));
    var rest := h[..index] + h[index + 1..];
    var kept := WithoutShow(rest, prior.movieId);
    ProgressOnExistingFacts(h, index, rest, kept, updated);
    [updated] + kept
  }

  /** The fallback branch of `updateHistoryProgress`: `incoming` (already
      carrying the new position and length) goes on top, every entry of its
      show goes, and the list is capped. */
  function ProgressedFallback(h: seq<Episode>, incoming: Episode): (h': seq<Episode>)
    ensures |h'| >= 1 && h'[0] == incoming
    ensures forall k :: 1 <= k < |h'| ==> h'[k].movieId != incoming.movieId
    ensures IsSubsequence(h'[1..], h)
    ensures |h| <= HistoryLimit ==> |h'| <= HistoryLimit
    ensures WellFormedHistory(h) && (forall k :: 0 <= k < |h| ==> h[k].id != incoming.id) ==>
      WellFormedHistory(h')
  {
    var kept := WithoutShow(h, incoming.movieId);
    SubsequenceLength(kept, h);
    PrependCappedShowFacts(h, incoming, kept);
    PrependFreshKeepsWellFormed(h, incoming);
    DropLastOver([incoming] + kept, HistoryLimit)
  }

  /** Putting an entry whose id is new on top of a well-formed history, with
      its show's entries gone and the list capped, keeps the history
      well-formed. */
  lemma PrependFreshKeepsWellFormed(h: seq<Episode>, e: Episode)
    ensures WellFormedHistory(h) && (forall k :: 0 <= k < |h| ==> h[k].id != e.id) ==>
      WellFormedHistory(DropLastOver([e] + WithoutShow(h, e.movieId), HistoryLimit))
  {
    var kept := WithoutShow(h, e.movieId);
    if WellFormedHistory(h) && forall k :: 0 <= k < |h| ==> h[k].id != e.id {
      assert forall k :: 0 <= k < |kept| ==> kept[k] in h;
      PrependCappedFacts(h, e, kept);
    }
  }

  /** `updateHistoryProgress(episodeId, timestamp, duration, episode)`.

      If the id is in the history, its first entry moves to the top with the
      new position and length and the merged title, and every other entry of
      its show goes; the list never grows. If not, and a fallback episode is
      given, the fallback is recorded like `AddToHistory` (minus the same-id
      removal) with the given position and length. Otherwise nothing
      happens and nothing is written. */
  function UpdateHistoryProgress(p: Prefs, episodeId: string, timestamp: int, duration: int,
                                 episode: Option<Episode>): (r: Prefs)
    ensures r.watchlist == p.watchlist
    ensures IndexOfEpisode(GetHistory(p), episodeId) == -1 && episode.None? ==> r == p
    ensures var h := GetHistory(p);
      forall i :: IsFirstWithId(h, i, episodeId) ==>
        r.history.Stored? && |r.history.items| >= 1 &&
        r.history.items[0] == h[i].(timestamp := timestamp, duration := duration, movieTitle := MergedTitle(episode, h[i]))
    ensures IndexOfEpisode(GetHistory(p), episodeId) == -1 && episode.Some? ==>
      r.history.Stored? && |r.history.items| >= 1 &&
      r.history.items[0] == episode.value.(timestamp := timestamp, duration := duration)
  {
    var h := GetHistory(p);
    var index := IndexOfEpisode(h, episodeId);
    if index != -1 then
      var h' := ProgressedExisting(h, index, timestamp, duration, episode);
      p.(history := Stored(h'))
    else if episode.Some? then
      var h' := ProgressedFallback(h, episode.value.(timestamp := timestamp, duration := duration));
      p.(history := Stored(h'))
    else
      p
  }

  /** `updateHistoryProgress` on an id that is in the history. */
  lemma UpdateHistoryProgressOnExisting(p: Prefs, episodeId: string, timestamp: int, duration: int,
                                        episode: Option<Episode>)
    requires IndexOfEpisode(GetHistory(p), episodeId) != -1
    ensures var i := IndexOfEpisode(GetHistory(p), episodeId);
      UpdateHistoryProgress(p, episodeId, timestamp, duration, episode).history ==
        Stored(ProgressedExisting(GetHistory(p), i, timestamp, duration, episode))
  {
  }

  /** `updateHistoryProgress` on an id that is not in the history, with a fallback episode. */
  lemma UpdateHistoryProgressOnAbsent(p: Prefs, episodeId: string, timestamp: int, duration: int,
                                      episode: Episode)
    requires forall k :: 0 <= k < |GetHistory(p)| ==> GetHistory(p)[k].id != episodeId
    ensures UpdateHistoryProgress(p, episodeId, timestamp, duration, Some(episode)).history ==
      Stored(ProgressedFallback(GetHistory(p), episode.(timestamp := timestamp, duration := duration)))
  {
  }

  /** `updateHistoryProgress` keeps the history invariant when the
      fallback episode, if any, carries the id being updated (as the player
      always passes it). */
  lemma UpdateHistoryProgressKeepsWellFormed(p: Prefs, episodeId: string, timestamp: int, duration: int,
                                             episode: Option<Episode>)
    requires WellFormedHistory(GetHistory(p))
    requires episode.None? || episode.value.id == episodeId
    ensures WellFormedHistory(GetHistory(UpdateHistoryProgress(p, episodeId, timestamp, duration, episode)))
  {
    var h := GetHistory(p);
    var index := IndexOfEpisode(h, episodeId);
    if index != -1 {
      UpdateHistoryProgressOnExisting(p, episodeId, timestamp, duration, episode);
      var h' := ProgressedExisting(h, index, timestamp, duration, episode);
      assert WellFormedHistory(h');
    } else if episode.Some? {
      var incoming := episode.value.(timestamp := timestamp, duration := duration);
      assert forall k :: 0 <= k < |h| ==> h[k].id != incoming.id;
      UpdateHistoryProgressOnAbsent(p, episodeId, timestamp, duration, episode.value);
      var h' := ProgressedFallback(h, incoming);
      assert WellFormedHistory(h');
    }
  }

  /** Like `PrependCappedFacts`, without assuming the ids differ. */
  lemma PrependCappedShowFacts(h: seq<Episode>, e: Episode, kept: seq<Episode>)
    requires IsSubsequence(kept, h)
    requires forall i :: 0 <= i < |kept| ==> kept[i].movieId != e.movieId
    ensures var h' := DropLastOver([e] + kept, HistoryLimit);
      && |h'| >= 1 && h'[0] == e
      && (forall i :: 1 <= i < |h'| ==> h'[i].movieId != e.movieId)
      && IsSubsequence(h'[1..], h)
  {
    var s := [e] + kept;
    var h' := DropLastOver(s, HistoryLimit);
    if |s| > HistoryLimit {
      assert h'[1..] == kept[..|kept| - 1];
      SubsequencePrefix(kept, h, |kept| - 1);
    } else {
      assert h'[1..] == kept;
    }
    forall i | 1 <= i < |h'|
      ensures h'[i].movieId != e.movieId
    {
      assert h'[i] == kept[i - 1];
    }
  }

  /** `rest` is `h` with position `index` removed. */
  lemma RemoveAtPositions(h: seq<Episode>, index: int, rest: seq<Episode>)
    requires 0 <= index < |h|
    requires rest == h[..index] + h[index + 1..]
    ensures |rest| == |h| - 1
    ensures forall j :: 0 <= j < index ==> rest[j] == h[j]
    ensures forall j :: index <= j < |rest| ==> rest[j] == h[j + 1]
    ensures IsSubsequence(rest, h)
  {
    RemoveAtIsSubsequence(h, index);
  }

  lemma ProgressOnExistingFacts(h: seq<Episode>, index: int, rest: seq<Episode>, kept: seq<Episode>,
                                updated: Episode)
    requires 0 <= index < |h| && updated.id == h[index].id
    requires updated.movieId == h[index].movieId
    requires rest == h[..index] + h[index + 1..]
    requires kept == WithoutShow(rest, h[index].movieId)
    ensures var h' := [updated] + kept;
      && 1 <= |h'| <= |h|
      && (forall k :: 1 <= k < |h'| ==> h'[k].movieId != h[index].movieId)
      && (forall k :: 0 <= k < |h| && k != index && h[k].movieId != h[index].movieId ==> h[k] in h')
      && IsSubsequence(h'[1..], h)
      && (WellFormedHistory(h) ==> WellFormedHistory(h'))
  {
    var h' := [updated] + kept;
    assert h'[1..] == kept;
    RemoveAtPositions(h, index, rest);
    SubsequenceTransitive(kept, rest, h);
    SubsequenceLength(kept, rest);
    forall k | 0 <= k < |h| && k != index && h[k].movieId != h[index].movieId
      ensures h[k] in h'
    {
      if k < index {
        assert rest[k] == h[k];
      } else {
        assert rest[k - 1] == h[k];
      }
    }
    forall k | 1 <= k < |h'|
      ensures h'[k].movieId != h[index].movieId
    {
      assert h'[k] == kept[k - 1];
    }
    if WellFormedHistory(h) {
      ProgressKeepsWellFormed(h, index, rest, kept, updated);
    }
  }

  lemma ProgressKeepsWellFormed(h: seq<Episode>, index: int, rest: seq<Episode>, kept: seq<Episode>,
                                updated: Episode)
    requires WellFormedHistory(h)
    requires 0 <= index < |h| && updated.id == h[index].id && updated.movieId == h[index].movieId
    requires |rest| == |h| - 1
    requires forall j :: 0 <= j < index ==> rest[j] == h[j]
    requires forall j :: index <= j < |rest| ==> rest[j] == h[j + 1]
    requires IsSubsequence(kept, h) && |kept| <= |rest|
    requires forall k :: 0 <= k < |kept| ==> kept[k] in rest
    ensures WellFormedHistory([updated] + kept)
  {
    SubsequenceKeepsUnique(kept, h, EpisodeKey);
    SubsequenceKeepsUnique(kept, h, ShowKey);
    forall k | 0 <= k < |kept|
      ensures EpisodeKey(kept[k]) != EpisodeKey(updated) && ShowKey(kept[k]) != ShowKey(updated)
    {
      var j :| 0 <= j < |rest| && rest[j] == kept[k];
      if j < index {
        assert rest[j] == h[j];
      } else {
        assert rest[j] == h[j + 1];
      }
    }
    ConsKeepsUnique(updated, kept, EpisodeKey);
    ConsKeepsUnique(updated, kept, ShowKey);
  }

  /** `updateEpisodeMovieTitle(episodeId, movieTitle)`: fills in the title
      of the first entry with that id, in place, only if it has none; writes
      only then. */
  function UpdateEpisodeMovieTitle(p: Prefs, episodeId: string, movieTitle: string): (r: Prefs)
    ensures r.watchlist == p.watchlist
    ensures var h, h' := GetHistory(p), GetHistory(r);
      && |h'| == |h|
      && (forall k :: 0 <= k < |h| && !(IsFirstWithId(h, k, episodeId) && h[k].movieTitle.None?) ==> h'[k] == h[k])
      && (forall k :: IsFirstWithId(h, k, episodeId) && h[k].movieTitle.None? ==>
            h'[k] == h[k].(movieTitle := Some(movieTitle)))
      && ((forall k :: IsFirstWithId(h, k, episodeId) ==> h[k].movieTitle.Some?) ==> r == p)
      && (WellFormedHistory(h) ==> WellFormedHistory(h'))
  {
    var h := GetHistory(p);
    var index := IndexOfEpisode(h, episodeId);
    if index != -1 && h[index].movieTitle.None? then
      var h' := h[index := h[index].(movieTitle := Some(movieTitle))];
      assert forall k :: IsFirstWithId(h, k, episodeId) ==> k == index;
      RetitleKeepsWellFormed(h, index, Some(movieTitle));
      p.(history := Stored(h'))
    else
      assert forall k :: IsFirstWithId(h, k, episodeId) ==> k == index;
      p
  }

  /** Changing one entry's show title touches neither ids nor shows. */
  lemma RetitleKeepsWellFormed(h: seq<Episode>, index: nat, title: Option<string>)
    requires index < |h|
    ensures WellFormedHistory(h) ==> WellFormedHistory(h[index := h[index].(movieTitle := title)])
  {
    var h' := h[index := h[index].(movieTitle := title)];
    assert forall k :: 0 <= k < |h| ==> EpisodeKey(h'[k]) == EpisodeKey(h[k]) && ShowKey(h'[k]) == ShowKey(h[k]);
  }

  /** Back-filling a title twice is back-filling it once. */
  lemma UpdateEpisodeMovieTitleIdempotent(p: Prefs, episodeId: string, movieTitle: string)
    ensures var q := UpdateEpisodeMovieTitle(p, episodeId, movieTitle);
      UpdateEpisodeMovieTitle(q, episodeId, movieTitle) == q
  {
    var h := GetHistory(p);
    var q := UpdateEpisodeMovieTitle(p, episodeId, movieTitle);
    var hq := GetHistory(q);
    forall k | IsFirstWithId(hq, k, episodeId)
      ensures hq[k].movieTitle.Some?
    {
      assert IsFirstWithId(h, k, episodeId);
    }
  }

  /** A run of `addToHistory` calls, oldest first. */
  function AddAllToHistory(p: Prefs, episodes: seq<Episode>): Prefs
    decreases |episodes|
  {
    if |episodes| == 0 then p
    else AddAllToHistory(AddToHistory(p, episodes[0]), episodes[1..])
  }

  lemma AddToHistoryStep(p: Prefs, e: Episode)
    requires WellFormedHistory(GetHistory(p))
    ensures var h' := GetHistory(AddToHistory(p, e));
      WellFormedHistory(h') && |h'| > 0 && h'[0] == e
  {
  }

  lemma AddAllToHistoryCons(p: Prefs, episodes: seq<Episode>)
    requires |episodes| > 0
    ensures AddAllToHistory(p, episodes) == AddAllToHistory(AddToHistory(p, episodes[0]), episodes[1..])
  {
  }

  /** Any run of episode starts keeps the history invariant (at most 50
      entries, one per show, one per episode id) and leaves the latest
      episode on top. */
  lemma {:induction false} AddAllToHistoryWellFormed(p: Prefs, episodes: seq<Episode>)
    requires WellFormedHistory(GetHistory(p))
    ensures WellFormedHistory(GetHistory(AddAllToHistory(p, episodes)))
    ensures |episodes| > 0 ==>
      |GetHistory(AddAllToHistory(p, episodes))| > 0 &&
      GetHistory(AddAllToHistory(p, episodes))[0] == episodes[|episodes| - 1]
    decreases |episodes|
  {
    if |episodes| > 0 {
      var q := AddToHistory(p, episodes[0]);
      var rest := episodes[1..];
      AddAllToHistoryCons(p, episodes);
      AddToHistoryStep(p, episodes[0]);
      AddAllToHistoryWellFormed(q, rest);
      if |rest| > 0 {
        assert rest[|rest| - 1] == episodes[|episodes| - 1];
      }
    }
  }

  /** A full history of 50 different shows loses exactly its oldest entry
      when a 51st show starts. */
  lemma AddToFullHistoryEvictsOldest(p: Prefs, e: Episode)
    requires |GetHistory(p)| == HistoryLimit
    requires forall i :: 0 <= i < |GetHistory(p)| ==>
      GetHistory(p)[i].id != e.id && GetHistory(p)[i].movieId != e.movieId
    ensures GetHistory(AddToHistory(p, e)) == [e] + GetHistory(p)[..HistoryLimit - 1]
  {
    var h := GetHistory(p);
    assert WithoutEpisode(h, e.id) == h;
    assert WithoutOtherEpisodesOfShow(h, e) == h;
  }

  /** Starting a second episode of a show replaces the first one. */
  lemma NewEpisodeOfShowSupersedes(a1: Episode, b1: Episode)
    requires a1.movieId == b1.movieId && a1.id != b1.id
    ensures GetHistory(AddToHistory(AddToHistory(EmptyPrefs, a1), b1)) == [b1]
  {
    var p := AddToHistory(EmptyPrefs, a1);
    assert GetHistory(p) == [a1];
    assert WithoutEpisode([a1], b1.id) == [a1];
    assert WithoutOtherEpisodesOfShow([a1], b1) == [];
  }
}
