/** The player screen's bookkeeping: the clock text, resuming from the
    saved position, the once-only initial seek and end-of-episode
    detection, and saving progress on exit. Rendering, the web view, the
    native player and the polling loops are left out; what they report
    arrives as events. */
module PlayerScreen {
  import opened Nullable
  import opened Numeric
  import opened Text
  import opened Models
  import opened LocalStorage

  // ---------------------------------------------------------------------
  // Clock text

  /** `"%02d".format(n)`: at least two characters, zero-padded; a negative
      number is its sign and digits, which already fill the width from -9 down. */
  function Pad2(n: int): (r: string)
    ensures n >= 0 ==> |r| >= 2 && AllDigits(r) && DigitsValue(r) == n
    ensures 0 <= n < 100 ==> |r| == 2
    ensures n < 0 ==> r == IntToString(n)
    ensures 0 <= n < 10 ==> r == "0" + NatToString(n)
    ensures n >= 10 ==> r == NatToString(n)
  {
    if 0 <= n < 10 then
      var r := ['0', DigitChar(n)];
      assert r[..1] == ['0'] && r[..1][..0] == [];
      assert DigitsValue(r[..1]) == 0;
      assert DigitsValue(r) == DigitsValue(r[..1]) * 10 + n;
      r
    else IntToString(n)
  }

  /** `formatTime(seconds)`: whole seconds as `mm:ss`, minutes and seconds
      each zero-padded to two digits, dividing with Kotlin's truncating `/` and `%`. */
  function FormatTime(seconds: real): (r: string)
    ensures 0.0 <= seconds ==> |r| >= 5 && r[|r| - 3] == ':'
  {
    var total := FloatToInt(seconds);
    Pad2(DivTrunc(total, 60)) + ":" + Pad2(RemTrunc(total, 60))
  }

  /** Reads `mm:ss` text back as seconds: two runs of digits around one colon. */
  function ParseClock(text: string): (r: Option<int>)
    ensures r.Some? ==> r.value >= 0
  {
    var parts := Split(text, ':');
    if |parts| == 2 && |parts[0]| > 0 && AllDigits(parts[0]) && |parts[1]| > 0 && AllDigits(parts[1])
    then Some(DigitsValue(parts[0]) * 60 + DigitsValue(parts[1]))
    else None
  }

  /** For a non-negative time the clock text shows exactly the whole
      seconds: minutes, then seconds below 60, read back give them again. */
  lemma FormatTimeRoundTrip(seconds: real)
    requires 0.0 <= seconds
    ensures ParseClock(FormatTime(seconds)) == Some(FloatToInt(seconds))
  {
    var total := FloatToInt(seconds);
    var m, s := DivTrunc(total, 60), RemTrunc(total, 60);
    assert m * 60 + s == total && m >= 0 && s >= 0;
    ClockRoundTrip(Pad2(m), Pad2(s));
  }

  /** Two digit runs around a colon read back as minutes and seconds. */
  lemma ClockRoundTrip(a: string, b: string)
    requires |a| > 0 && AllDigits(a) && |b| > 0 && AllDigits(b)
    ensures ParseClock(a + ":" + b) == Some(DigitsValue(a) * 60 + DigitsValue(b))
  {
    NoColonInDigits(a);
    NoColonInDigits(b);
    var parts := [a, b];
    assert parts[1..] == [b];
    assert Join(parts, ':') == a + ":" + b;
    SplitJoin(parts, ':');
    assert Split(a + ":" + b, ':') == parts;
  }

  lemma NoColonInDigits(s: string)
    requires AllDigits(s)
    ensures ':' !in s
  {
    forall k | 0 <= k < |s|
      ensures s[k] != ':'
    {
      assert IsDigit(s[k]);
    }
  }

  /** The seconds field is always two digits below 60 for a non-negative time. */
  lemma FormatTimeSecondsField(seconds: real)
    requires 0.0 <= seconds
    ensures var r := FormatTime(seconds);
      AllDigits(r[|r| - 2..]) && DigitsValue(r[|r| - 2..]) < 60
  {
    var total := FloatToInt(seconds);
    var b := Pad2(RemTrunc(total, 60));
    var r := FormatTime(seconds);
    assert r[|r| - 2..] == b;
  }

  // ---------------------------------------------------------------------
  // Playback state

  /** The screen's state variables that decide seeking, ending and saving. */
  datatype PlayerState = PlayerState(
    initialSeekTime: real,
    hasPerformedInitialSeek: bool,
    currentTime: real,
    duration: real,
    hasEpisodeEnded: bool)

  /** Nothing to resume, not ended, duration 1 so nothing divides by zero. */
  const InitialState: PlayerState := PlayerState(0.0, false, 0.0, 1.0, false)

  /** What the screen is told, in order. */
  datatype Event =
    | EpisodeChanged                          // the `LaunchedEffect(episodeId)` reset
    | Resume(resumeTime: int)                 // the saved position read on load
    | WebSample(webTime: real, d: real)       // one poll of the web page's video
    | NativeSample(position: real, dur: real) // one reading of the native player

  /** What a step changes and asks for. */
  datatype StepResult = StepResult(state: PlayerState, seekTo: Option<real>, requestNext: bool)

  /** Within the last second of a known (longer than 1 s) duration. */
  predicate AtEnd(s: PlayerState)
  {
    s.duration > 1.0 && s.currentTime >= s.duration - 1.0
  }

  /** The end check both players run after updating the time: fires once,
      and only while the episode has not ended. */
  function DetectEnd(s: PlayerState): (r: StepResult)
    ensures r.requestNext <==> !s.hasEpisodeEnded && AtEnd(s)
    ensures r.state == s.(hasEpisodeEnded := s.hasEpisodeEnded || r.requestNext)
    ensures r.seekTo.None?
  {
    if !s.hasEpisodeEnded && AtEnd(s) then StepResult(s.(hasEpisodeEnded := true), None, true)
    else StepResult(s, None, false)
  }

  /** One web poll: a positive reported duration replaces the stored one;
      the first poll with a pending resume position seeks there and shows
      it, every other poll shows the page's time; then the end check. */
  function OnWebSample(s: PlayerState, webTime: real, d: real): (r: StepResult)
    ensures d > 0.0 ==> r.state.duration == d
    ensures d <= 0.0 ==> r.state.duration == s.duration
    ensures r.seekTo.Some? <==> !s.hasPerformedInitialSeek && s.initialSeekTime > 0.0
    ensures r.seekTo.Some? ==> r.seekTo.value == s.initialSeekTime == r.state.currentTime
    ensures r.seekTo.None? ==> r.state.currentTime == webTime
    ensures r.state.hasPerformedInitialSeek <==> s.hasPerformedInitialSeek || r.seekTo.Some?
    ensures r.state.initialSeekTime == s.initialSeekTime
  {
    var s1 := if d > 0.0 then s.(duration := d) else s;
    if !s1.hasPerformedInitialSeek && s1.initialSeekTime > 0.0 then
      var e := DetectEnd(s1.(hasPerformedInitialSeek := true, currentTime := s1.initialSeekTime));
      e.(seekTo := Some(s1.initialSeekTime))
    else
      DetectEnd(s1.(currentTime := webTime))
  }

  /** One native reading, passed on only when the duration is positive:
      time and duration are taken as reported, then the end check. */
  function OnNativeSample(s: PlayerState, position: real, dur: real): (r: StepResult)
    ensures dur <= 0.0 ==> r == StepResult(s, None, false)
    ensures dur > 0.0 ==> r.state.currentTime == position && r.state.duration == dur
    ensures r.seekTo.None?
    ensures r.state.hasPerformedInitialSeek == s.hasPerformedInitialSeek
  {
    if dur > 0.0 then DetectEnd(s.(currentTime := position, duration := dur))
    else StepResult(s, None, false)
  }

  /** The saved position, applied only when positive. */
  function OnResume(s: PlayerState, resumeTime: int): (r: PlayerState)
    ensures resumeTime > 0 ==> r.initialSeekTime == r.currentTime == resumeTime as real
    ensures resumeTime <= 0 ==> r == s
    ensures r.hasPerformedInitialSeek == s.hasPerformedInitialSeek && r.hasEpisodeEnded == s.hasEpisodeEnded
  {
    if resumeTime > 0 then s.(initialSeekTime := resumeTime as real, currentTime := resumeTime as real) else s
  }

  /** One event: an episode change clears the end flag, a resume position
      is stored, a sample from either player updates the time. */
  function Step(s: PlayerState, e: Event): (r: StepResult)
    ensures r.requestNext ==> !s.hasEpisodeEnded && r.state.hasEpisodeEnded && AtEnd(r.state)
    ensures r.requestNext ==> e.WebSample? || e.NativeSample?
    ensures r.state.hasEpisodeEnded ==> !e.EpisodeChanged? && (s.hasEpisodeEnded || r.requestNext)
    ensures r.seekTo.Some? ==> e.WebSample? && !s.hasPerformedInitialSeek && r.state.hasPerformedInitialSeek
    ensures r.seekTo.Some? ==> r.seekTo.value == s.initialSeekTime > 0.0
    ensures r.state.hasPerformedInitialSeek <==> s.hasPerformedInitialSeek || r.seekTo.Some?
  {
    match e
    case EpisodeChanged => StepResult(s.(hasEpisodeEnded := false), None, false)
    case Resume(t) => StepResult(OnResume(s, t), None, false)
    case WebSample(t, d) => OnWebSample(s, t, d)
    case NativeSample(pos, dur) => OnNativeSample(s, pos, dur)
  }

  /** Every two auto-play requests have an episode change between them. */
  predicate Separated(events: seq<Event>, requests: seq<nat>)
  {
    forall k :: 0 <= k < |requests| - 1 ==>
      requests[k] < requests[k + 1] && ChangeBetween(events, requests[k], requests[k + 1])
  }

  predicate ChangeBetween(events: seq<Event>, lo: int, hi: int)
  {
    exists j :: lo < j < hi && 0 <= j < |events| && events[j].EpisodeChanged?
  }

  /** Runs the screen's events from the initial state, collecting where
      the player was told to seek and at which events the next episode was
      requested. */
  method PlaySession(events: seq<Event>) returns (final: PlayerState, seeks: seq<real>, requests: seq<nat>)
    ensures |seeks| <= 1
    ensures |seeks| == 1 <==> final.hasPerformedInitialSeek
    ensures forall k :: 0 <= k < |seeks| ==> seeks[k] > 0.0
    ensures forall k :: 0 <= k < |requests| ==> requests[k] < |events| && !events[requests[k]].EpisodeChanged?
    ensures forall k :: 0 <= k < |requests| ==> events[requests[k]].WebSample? || events[requests[k]].NativeSample?
    ensures Separated(events, requests)
    ensures (forall j :: 0 <= j < |events| ==> !events[j].EpisodeChanged?) ==> |requests| <= 1
  {
    final := InitialState;
    seeks := [];
    requests := [];
    var i := 0;
    while i < |events|
      invariant 0 <= i <= |events|
      invariant |seeks| == (if final.hasPerformedInitialSeek then 1 else 0)
      invariant forall k :: 0 <= k < |seeks| ==> seeks[k] > 0.0
      invariant forall k :: 0 <= k < |requests| ==> requests[k] < i && !events[requests[k]].EpisodeChanged?
      invariant forall k :: 0 <= k < |requests| ==> events[requests[k]].WebSample? || events[requests[k]].NativeSample?
      invariant Separated(events, requests)
      invariant final.hasEpisodeEnded ==>
        |requests| > 0 && forall j :: requests[|requests| - 1] < j < i ==> !events[j].EpisodeChanged?
      invariant !final.hasEpisodeEnded && |requests| > 0 ==> ChangeBetween(events, requests[|requests| - 1], i)
    {
      var r := Step(final, events[i]);
      if r.seekTo.Some? {
        seeks := seeks + [r.seekTo.value];
      }
      if r.requestNext {
        requests := requests + [i];
      }
      final := r.state;
      i := i + 1;
    }
    if |requests| > 1 {
      assert ChangeBetween(events, requests[0], requests[1]);
    }
  }

  // ---------------------------------------------------------------------
  // History on load and on exit

  /** The saved position of the episode's first history entry, or 0 when
      it has none. */
  function ResumeTime(history: seq<Episode>, episodeId: string): (t: int)
    ensures (forall k :: 0 <= k < |history| ==> history[k].id != episodeId) ==> t == 0
    ensures forall k :: IsFirstWithId(history, k, episodeId) ==> t == history[k].timestamp
  {
    var i := IndexOfEpisode(history, episodeId);
    if i == -1 then 0 else history[i].timestamp
  }
  /** Episodes as the catalog lists them are built with no saved position,
      so a history holding only such entries resumes every episode from 0. */
  lemma ListedEpisodesResumeFromStart(history: seq<Episode>, episodeId: string)
    requires forall k :: 0 <= k < |history| ==>
      history[k] == NewEpisode(history[k].id, history[k].movieId, history[k].number,
                               history[k].title, history[k].videoUrl)
    ensures ResumeTime(history, episodeId) == 0
  {
    var i := IndexOfEpisode(history, episodeId);
    if i != -1 {
      assert history[i].timestamp == 0;
    }
  }


  /** What the player knows about the episode it shows. */
  datatype Playing = Playing(
    movieId: string, episodeId: string, number: string, title: string, videoUrl: string,
    movieTitle: Option<string>)

  /** The record written for the episode being played. */
  function EntryFor(ep: Playing, timestamp: int, duration: int): (e: Episode)
    ensures e.id == ep.episodeId && e.movieId == ep.movieId && e.number == ep.number
    ensures e.title == ep.title && e.videoUrl == ep.videoUrl && e.movieTitle == ep.movieTitle
    ensures e.thumbnailUrl.None? && e.timestamp == timestamp && e.duration == duration
  {
    Episode(ep.episodeId, ep.movieId, ep.number, ep.title, ep.videoUrl, None, timestamp, duration, ep.movieTitle)
  }

  /** The load effect: with both ids present, the saved position is read
      and resumed, and the episode is put on top of the history carrying
      that position (and duration 0); otherwise nothing happens. */
  function OnLoad(p: Prefs, s: PlayerState, ep: Playing): (r: (Prefs, PlayerState))
    ensures ep.movieId == "" || ep.episodeId == "" ==> r == (p, s)
    ensures ep.movieId != "" && ep.episodeId != "" ==>
      var t := ResumeTime(GetHistory(p), ep.episodeId);
      r == (AddToHistory(p, EntryFor(ep, t, 0)), OnResume(s, t))
  {
    if ep.movieId != "" && ep.episodeId != "" then
      var t := ResumeTime(GetHistory(p), ep.episodeId);
      (AddToHistory(p, EntryFor(ep, t, 0)), OnResume(s, t))
    else (p, s)
  }

  /** Opening an episode keeps its saved position: the history's top entry
      is the episode with the position it had before. */
  lemma OnLoadKeepsPosition(p: Prefs, s: PlayerState, ep: Playing)
    requires ep.movieId != "" && ep.episodeId != ""
    ensures var h := GetHistory(OnLoad(p, s, ep).0);
      |h| >= 1 && h[0].id == ep.episodeId &&
      h[0].timestamp == ResumeTime(GetHistory(p), ep.episodeId)
  {
  }

  /** Whether leaving the screen saves progress: some time was shown and
      the episode did not end (auto-play has moved on then). */
  predicate SavesOnExit(s: PlayerState)
  {
    s.currentTime > 0.0 && !s.hasEpisodeEnded
  }

  /** The dispose effect: `updateHistoryProgress` with the shown time and
      duration converted to `Long`, and the episode itself as fallback. */
  function OnExit(p: Prefs, s: PlayerState, ep: Playing): (r: Prefs)
    ensures !SavesOnExit(s) ==> r == p
    ensures r.watchlist == p.watchlist
  {
    if SavesOnExit(s) then
      var t, d := FloatToLong(s.currentTime), FloatToLong(s.duration);
      UpdateHistoryProgress(p, ep.episodeId, t, d, Some(EntryFor(ep, t, d)))
    else p
  }

  /** After a saving exit the episode is on top of the history with the
      whole seconds shown, and the history invariant still holds. */
  lemma OnExitRecordsPosition(p: Prefs, s: PlayerState, ep: Playing)
    requires SavesOnExit(s)
    requires WellFormedHistory(GetHistory(p))
    ensures var h := GetHistory(OnExit(p, s, ep));
      && |h| >= 1 && h[0].id == ep.episodeId
      && h[0].timestamp == FloatToLong(s.currentTime)
      && h[0].duration == FloatToLong(s.duration)
      && WellFormedHistory(h)
  {
    var t, d := FloatToLong(s.currentTime), FloatToLong(s.duration);
    var h := GetHistory(p);
    var incoming := EntryFor(ep, t, d);
    UpdateHistoryProgressKeepsWellFormed(p, ep.episodeId, t, d, Some(incoming));
    if IndexOfEpisode(h, ep.episodeId) != -1 {
      UpdateHistoryProgressOnExisting(p, ep.episodeId, t, d, Some(incoming));
    } else {
      UpdateHistoryProgressOnAbsent(p, ep.episodeId, t, d, incoming);
    }
  }
}
