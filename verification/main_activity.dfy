/** Navigation decisions made by the activity: the episode auto-play moves
    on to, and how far "back" unwinds a run of player screens. */
module MainActivity {
  import opened Nullable
  import opened Seqs
  import opened Text
  import opened Models
  import opened WebFallback
  import NetworkModels
  import AppRepository

  // ---------------------------------------------------------------------
  // Stable sort by a key (`sortedBy`)

  predicate SortedBy<T>(xs: seq<T>, key: T -> real)
  {
    forall i, j :: 0 <= i < j < |xs| ==> key(xs[i]) <= key(xs[j])
  }

  /** Puts `x` in front of the first element whose key is not smaller, so
      an element ends up before the equal-keyed ones it preceded. */
  function InsertBy<T>(x: T, ys: seq<T>, key: T -> real): (r: seq<T>)
    requires SortedBy(ys, key)
    ensures forall k :: 0 <= k < |r| ==> r[k] == x || r[k] in ys
    ensures SortedBy(r, key)
  {
    if |ys| == 0 || key(x) <= key(ys[0]) then [x] + ys
    else
      var rest := InsertBy(x, ys[1..], key);
      assert forall k :: 0 <= k < |rest| ==> key(ys[0]) <= key(rest[k]);
      PrependSorted(ys[0], rest, key);
      [ys[0]] + rest
  }

  lemma PrependSorted<T>(y: T, ys: seq<T>, key: T -> real)
    requires SortedBy(ys, key)
    requires forall k :: 0 <= k < |ys| ==> key(y) <= key(ys[k])
    ensures SortedBy([y] + ys, key)
  {
  }

  /** Inserting adds `x` and loses nothing. */
  lemma {:induction false} InsertByPermutes<T>(x: T, ys: seq<T>, key: T -> real)
    requires SortedBy(ys, key)
    ensures multiset(InsertBy(x, ys, key)) == multiset(ys) + multiset{x}
  {
    if |ys| > 0 && key(x) > key(ys[0]) {
      assert ys == [ys[0]] + ys[1..];
      InsertByPermutes(x, ys[1..], key);
    }
  }

  /** `sortedBy(key)`: a permutation of `xs`, ordered by key, equal keys
      keeping their original order. */
  function SortBy<T>(xs: seq<T>, key: T -> real): (r: seq<T>)
    ensures SortedBy(r, key)
  {
    if |xs| == 0 then [] else InsertBy(xs[0], SortBy(xs[1..], key), key)
  }

  /** Sorting keeps every element, as often as it occurs. */
  lemma {:induction false} SortByPermutes<T>(xs: seq<T>, key: T -> real)
    ensures multiset(SortBy(xs, key)) == multiset(xs)
  {
    if |xs| > 0 {
      assert xs == [xs[0]] + xs[1..];
      SortByPermutes(xs[1..], key);
      InsertByPermutes(xs[0], SortBy(xs[1..], key), key);
    }
  }

  /** The test `find` applies: a key strictly beyond `current`. */
  function Beyond<T>(key: T -> real, current: real): T -> bool
  {
    x => key(x) > current
  }

  /** Whether `x` should replace the best candidate found later in the list:
      its key is beyond `current` and not larger than the candidate's. */
  function PreferEarlier<T>(x: T, best: Option<T>, key: T -> real, current: real): Option<T>
  {
    if key(x) > current && (best.None? || key(x) <= key(best.value)) then Some(x) else best
  }

  /** `xs[i]` is, among the elements with key beyond `current`, one with
      the smallest key, and no earlier element has that key. */
  predicate EarliestBeyondAt<T>(xs: seq<T>, i: int, key: T -> real, current: real)
  {
    && 0 <= i < |xs| && key(xs[i]) > current
    && (forall j :: 0 <= j < |xs| && key(xs[j]) > current ==> key(xs[i]) <= key(xs[j]))
    && (forall j :: 0 <= j < i && key(xs[j]) > current ==> key(xs[i]) < key(xs[j]))
  }

  /** The reference answer, read off the unsorted list: among the elements
      with key beyond `current`, the first one with the smallest key. */
  function EarliestBeyond<T>(xs: seq<T>, key: T -> real, current: real): (r: Option<T>)
    ensures r.None? <==> forall j :: 0 <= j < |xs| ==> key(xs[j]) <= current
    ensures r.Some? ==> exists i :: EarliestBeyondAt(xs, i, key, current) && xs[i] == r.value
  {
    if |xs| == 0 then None
    else
      var rest := EarliestBeyond(xs[1..], key, current);
      EarliestStep(xs, key, current, rest);
      PreferEarlier(xs[0], rest, key, current)
  }

  /** Preferring the head over the answer for the tail gives the answer
      for the whole list. */
  lemma EarliestStep<T>(xs: seq<T>, key: T -> real, current: real, rest: Option<T>)
    requires |xs| > 0
    requires rest.Some? ==> exists i :: EarliestBeyondAt(xs[1..], i, key, current) && xs[1..][i] == rest.value
    requires rest.None? ==> forall j :: 0 <= j < |xs[1..]| ==> key(xs[1..][j]) <= current
    ensures var r := PreferEarlier(xs[0], rest, key, current);
      r.Some? ==> exists i :: EarliestBeyondAt(xs, i, key, current) && xs[i] == r.value
  {
    var r := PreferEarlier(xs[0], rest, key, current);
    if r.Some? {
      assert forall j :: 1 <= j < |xs| ==> xs[j] == xs[1..][j - 1];
      if rest.Some? {
        var i :| EarliestBeyondAt(xs[1..], i, key, current) && xs[1..][i] == rest.value;
        if key(xs[0]) <= current || key(xs[0]) > key(rest.value) {
          assert EarliestBeyondAt(xs, i + 1, key, current);
        } else {
          assert EarliestBeyondAt(xs, 0, key, current);
        }
      } else {
        assert EarliestBeyondAt(xs, 0, key, current);
      }
    }
  }

  /** Inserting into a sorted list changes the first element beyond
      `current` exactly as `PreferEarlier` says. */
  lemma {:induction false} FindAfterInsert<T>(x: T, ys: seq<T>, key: T -> real, current: real)
    requires SortedBy(ys, key)
    ensures FindFirst(InsertBy(x, ys, key), Beyond(key, current))
         == PreferEarlier(x, FindFirst(ys, Beyond(key, current)), key, current)
  {
    var p := Beyond(key, current);
    if |ys| == 0 || key(x) <= key(ys[0]) {
      FindFirstCons(x, ys, p);
    } else {
      assert ys == [ys[0]] + ys[1..];
      FindFirstCons(ys[0], ys[1..], p);
      FindFirstCons(ys[0], InsertBy(x, ys[1..], key), p);
      if key(ys[0]) <= current {
        FindAfterInsert(x, ys[1..], key, current);
      }
    }
  }

  /** Sorting stably by key and taking the first element beyond `current`
      gives the reference answer. */
  lemma {:induction false} FindAfterSortIsEarliestBeyond<T>(xs: seq<T>, key: T -> real, current: real)
    ensures FindFirst(SortBy(xs, key), Beyond(key, current)) == EarliestBeyond(xs, key, current)
  {
    if |xs| > 0 {
      FindAfterSortIsEarliestBeyond(xs[1..], key, current);
      FindAfterInsert(xs[0], SortBy(xs[1..], key), key, current);
    }
  }

  // ---------------------------------------------------------------------
  // Next episode

  /** An episode number as a float, 0 when it does not read as one;
      `parse` is the float reader. */
  function NumberOf(parse: string -> Option<real>, number: string): (v: real)
    ensures parse(number).Some? ==> v == parse(number).value
    ensures parse(number).None? ==> v == 0.0
  {
    parse(number).GetOr(0.0)
  }

  function EpisodeNumberKey(parse: string -> Option<real>): Episode -> real
  {
    (e: Episode) => NumberOf(parse, e.number)
  }

  /** The episode auto-play moves on to: in the list sorted by number, the
      first whose number is beyond the current one. */
  function NextEpisode(episodes: seq<Episode>, currentNumber: string, parse: string -> Option<real>): (r: Option<Episode>)
    ensures r.Some? ==> r.value in episodes
    ensures r.Some? ==> NumberOf(parse, r.value.number) > NumberOf(parse, currentNumber)
  {
    var key := EpisodeNumberKey(parse);
    var sorted := SortBy(episodes, key);
    var r := FindFirst(sorted, Beyond(key, NumberOf(parse, currentNumber)));
    SortByPermutes(episodes, key);
    assert r.Some? ==> r.value in multiset(sorted);
    r
  }

  /** The next episode is the one with the smallest number beyond the
      current one, the earliest listed among equal numbers; there is none
      exactly when no number lies beyond the current one. */
  lemma NextEpisodeIsSmallestBeyond(episodes: seq<Episode>, currentNumber: string, parse: string -> Option<real>)
    ensures var key := EpisodeNumberKey(parse);
      NextEpisode(episodes, currentNumber, parse) == EarliestBeyond(episodes, key, NumberOf(parse, currentNumber))
    ensures var r, cur := NextEpisode(episodes, currentNumber, parse), NumberOf(parse, currentNumber);
      r.None? <==> forall j :: 0 <= j < |episodes| ==> NumberOf(parse, episodes[j].number) <= cur
  {
    var key := EpisodeNumberKey(parse);
    FindAfterSortIsEarliestBeyond(episodes, key, NumberOf(parse, currentNumber));
  }

  /** Where auto-play goes. */
  datatype NextAction =
    | StayOnPlayer
      /** Pop the current player and open one for this episode. */
    | ReplacePlayer(videoUrl: string, movieId: string, episodeId: string, number: string, title: string)

  /** The URL to play the next episode with: its stream URL when non-empty,
      else the site page, which needs the show's title; `None` when the
      details are missing too. */
  function NextVideoUrl(streamUrl: string, details: Option<Movie>, movieId: string, next: Episode): (u: Option<string>)
    ensures streamUrl != "" ==> u == Some(streamUrl)
    ensures streamUrl == "" && details.Some? ==> u == Some(WebFallbackUrl(details.value.title, next.number, movieId, next.id))
    ensures u.None? <==> streamUrl == "" && details.None?
  {
    if streamUrl != "" then Some(streamUrl)
    else if details.Some? then Some(WebFallbackUrl(details.value.title, next.number, movieId, next.id))
    else None
  }

  /** `onNextEpisode(movieId, currentEpisodeNumber)`. The API answers are
      inputs: `episodes` from `getEpisodes(movieId)`, `streamUrlOf` the
      answer of `getStreamUrl`, `details` the answer of `getMovieDetails`. */
  function OnNextEpisode(movieId: string, currentNumber: string, episodes: seq<Episode>,
                         parse: string -> Option<real>, streamUrlOf: string -> string,
                         details: Option<Movie>): (a: NextAction)
    ensures var next := NextEpisode(episodes, currentNumber, parse);
      && (next.None? ==> a == StayOnPlayer)
      && (next.Some? ==>
            var u := NextVideoUrl(streamUrlOf(next.value.id), details, movieId, next.value);
            && (u.None? ==> a == StayOnPlayer)
            && (u.Some? ==> a == ReplacePlayer(u.value, movieId, next.value.id, next.value.number, next.value.title)))
  {
    if |episodes| == 0 then StayOnPlayer
    else
      match NextEpisode(episodes, currentNumber, parse)
      case None => StayOnPlayer
      case Some(next) =>
        match NextVideoUrl(streamUrlOf(next.id), details, movieId, next)
        case None => StayOnPlayer
        case Some(url) => ReplacePlayer(url, movieId, next.id, next.number, next.title)
  }

  /** Wired to the details call: when the next episode has no stream URL,
      auto-play stays on the current player exactly when the details call
      failed, and otherwise plays the site's page named after the show. */
  lemma AutoPlayWithoutStreamNeedsDetails(movieId: string, currentNumber: string, episodes: seq<Episode>,
                                          parse: string -> Option<real>, streamUrlOf: string -> string,
                                          response: AppRepository.Outcome<NetworkModels.DramaDetailResponse>)
    requires NextEpisode(episodes, currentNumber, parse).Some?
    requires streamUrlOf(NextEpisode(episodes, currentNumber, parse).value.id) == ""
    ensures var a := OnNextEpisode(movieId, currentNumber, episodes, parse, streamUrlOf,
                                   AppRepository.GetMovieDetails(response));
      var next := NextEpisode(episodes, currentNumber, parse).value;
      && (a == StayOnPlayer <==> response.Failed?)
      && (response.Success? ==>
            a == ReplacePlayer(WebFallbackUrl(response.value.title, next.number, movieId, next.id),
                               movieId, next.id, next.number, next.title))
  {
  }

  /** Auto-play never goes backwards or repeats the current number. */
  lemma OnNextEpisodeMovesForward(movieId: string, currentNumber: string, episodes: seq<Episode>,
                                  parse: string -> Option<real>, streamUrlOf: string -> string,
                                  details: Option<Movie>)
    ensures var a := OnNextEpisode(movieId, currentNumber, episodes, parse, streamUrlOf, details);
      a.ReplacePlayer? ==> NumberOf(parse, a.number) > NumberOf(parse, currentNumber)
  {
  }

  // ---------------------------------------------------------------------
  // Back navigation

  /** A destination route of the player screen. */
  predicate IsPlayerRoute(route: Option<string>)
  {
    route.Some? && StartsWith(route.value, "player/")
  }

  /** How many player entries sit directly under the top of the stack. */
  function PlayersBelowTop(stack: seq<Option<string>>): (n: nat)
    requires |stack| >= 1
    ensures n < |stack|
    ensures forall k :: |stack| - 1 - n <= k < |stack| - 1 ==> IsPlayerRoute(stack[k])
    ensures n < |stack| - 1 ==> !IsPlayerRoute(stack[|stack| - 2 - n])
    decreases |stack|
  {
    if |stack| >= 2 && IsPlayerRoute(stack[|stack| - 2]) then 1 + PlayersBelowTop(stack[..|stack| - 1]) else 0
  }

  /** `onBack`: pops the current screen and every player screen directly
      beneath it, stopping after the first pop that uncovers a non-player
      screen or empties the stack. The stack runs bottom to top. */
  method OnBack(stack: seq<Option<string>>) returns (result: seq<Option<string>>, pops: nat)
    requires |stack| >= 1
    ensures pops == 1 + PlayersBelowTop(stack)
    ensures result == stack[..|stack| - pops]
    ensures |result| == 0 || !IsPlayerRoute(result[|result| - 1])
  {
    result := stack;
    pops := 0;
    while true
      invariant |result| >= 1
      invariant pops + |result| == |stack|
      invariant result == stack[..|stack| - pops]
      invariant pops <= PlayersBelowTop(stack)
      invariant forall k :: |result| - 1 <= k < |stack| - 1 ==> IsPlayerRoute(stack[k])
      decreases |result|
    {
      if |result| < 2 {
        result := result[..|result| - 1];
        pops := pops + 1;
        break;
      }
      var previous := result[|result| - 2];
      if IsPlayerRoute(previous) {
        result := result[..|result| - 1];
        pops := pops + 1;
      } else {
        result := result[..|result| - 1];
        pops := pops + 1;
        break;
      }
    }
  }
}
