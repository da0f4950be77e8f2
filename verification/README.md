# kisskh watch-state core in Dafny

A model of the logic at the centre of the kisskh Android TV client. The model
covers these parts:

- **The local watch-state store** (`LocalStorage`). It keeps two lists, newest
  first:
  - the watchlist, unique by show id;
  - the viewing history, capped at 50 entries, with at most one entry per
    show and per episode id. It supports move-to-front, progress merging and
    title back-filling.
- **The rules around the store:**
  - the resume target and scroll row on the show page (`DetailScreen`);
  - next-episode selection and the back-stack unwinding of the activity
    (`MainActivity`);
  - the web-page fallback URL with its slug (`WebFallback`). The source
    writes it out twice.
  - the release-tag parser and the update decision (`UpdateRepository`);
  - the player screen's clock text and its resume, auto-play and
    save-on-exit flags (`PlayerScreen`);
  - the mapping from API records to app records, with its failure defaults
    (`AppRepository`, `NetworkModels`, `Models`).

Kotlin behaviour is written out explicitly:
- `Int` arithmetic wraps at 32 bits (`Numeric.Wrap32`).
- `Float.toInt`/`toLong` truncate toward zero and saturate (`Numeric`).
- `split` keeps empty pieces (`Text.Split`).
- `String.toInt` follows Java's `parseInt` on ASCII digits (`Text.ParseInt`).
- `sortedBy` is a stable sort (`MainActivity.SortBy`).
- `%02d` pads to two digits (`PlayerScreen.Pad2`).

Floats are `real`. A `Float` that must be read from or printed to text goes
through a parameter: `parse: string -> Option<real>` for `toFloatOrNull`, and
`floatText: real -> string` for `Float.toString`.

Persistent storage is modelled as `Prefs`, two slots that can each be:
- `Absent` (the key was never written);
- `Undecodable` (the stored JSON does not decode);
- `Stored` (a decoded list).

Reading either of the first two gives the empty list. Every network call is an
input: an `Outcome` that is either a decoded response or a failure with its
message, text and stack trace.

Modules, one per source file plus helpers:
- `Nullable`, `Seqs`, `Text`, `Numeric`: Kotlin standard-library behaviour;
- `Models`, `NetworkModels`: records;
- `LocalStorage`, `AppRepository`, `UpdateRepository`: the data layer;
- `WebFallback`, `DetailScreen`, `MainActivity`, `PlayerScreen`: the screens.

The contracts make two consequences of the code visible:
- The saved position is only sought in web mode. `PlayerScreen.OnNativeSample`
  never seeks, so the native player starts from the beginning.
- The history entry written when an episode loads has duration 0. It keeps
  that duration until the player saves on exit.

## Model

| member | source | states |
|---|---|---|
| Models.NewEpisode | app/src/main/java/com/example/kisskh/data/model/Models.kt:16-26 | an episode built from its five required fields has no thumbnail, no show title, and timestamp and duration 0 |
| NetworkModels.StreamResponse.Url | app/src/main/java/com/example/kisskh/data/network/NetworkModels.kt:40-41 | "Video" wins whenever present (even if empty), then "video", then "url"; the result is always one of the three fields, or "" when all are missing |
| LocalStorage.GetWatchlist | app/src/main/java/com/example/kisskh/data/LocalStorage.kt:23-31 | a missing key and an undecodable payload both read as the empty watchlist; otherwise the stored list |
| LocalStorage.GetHistory | app/src/main/java/com/example/kisskh/data/LocalStorage.kt:53-61 | a missing key and an undecodable payload both read as the empty history; otherwise the stored list |
| LocalStorage.IsWatchlisted | app/src/main/java/com/example/kisskh/data/LocalStorage.kt:48-50 | true exactly when the decoded watchlist holds an entry with the id; false for a missing or undecodable payload |
| LocalStorage.WithoutMovie | app/src/main/java/com/example/kisskh/data/LocalStorage.kt:43 | keeps exactly the entries without the id, in order; the list shrinks exactly when some entry has the id |
| LocalStorage.WithoutMovieCounts | app/src/main/java/com/example/kisskh/data/LocalStorage.kt:43 | every copy of an entry without the id survives, and no entry with it |
| LocalStorage.SaveToWatchlist | app/src/main/java/com/example/kisskh/data/LocalStorage.kt:33-39 | a listed id changes nothing; otherwise the movie goes in front of the unchanged old list; the id is then listed, an id-unique list stays id-unique, and the history is untouched |
| LocalStorage.RemoveFromWatchlist | app/src/main/java/com/example/kisskh/data/LocalStorage.kt:41-50 | afterwards the id is not listed; every other entry survives in its old order; no other id changes status; an unlisted id leaves the store as it was |
| LocalStorage.RemoveFromWatchlistCounts | app/src/main/java/com/example/kisskh/data/LocalStorage.kt:41-46 | the stored watchlist keeps every copy of each entry with another id and none with this id |
| LocalStorage.RemoveFromWatchlistIdempotent | app/src/main/java/com/example/kisskh/data/LocalStorage.kt:41-46 | removing an id twice is the same as removing it once |
| LocalStorage.SaveAllToWatchlistUnique | app/src/main/java/com/example/kisskh/data/LocalStorage.kt:33-39 | any run of saves keeps the watchlist unique by id, lists every saved show, and adds nothing but the saved shows |
| LocalStorage.SavedStaysListed | app/src/main/java/com/example/kisskh/data/LocalStorage.kt:33-50 | saving never unlists a show |
| LocalStorage.IndexOfEpisode | app/src/main/java/com/example/kisskh/data/LocalStorage.kt:84 | -1 exactly when no entry has the id; otherwise the first position holding it |
| LocalStorage.WithoutEpisode | app/src/main/java/com/example/kisskh/data/LocalStorage.kt:66 | keeps exactly the entries without the id, in order; nothing changes when no entry has it |
| LocalStorage.WithoutEpisodeCounts | app/src/main/java/com/example/kisskh/data/LocalStorage.kt:66 | every copy of an entry without the id survives, and no entry with it |
| LocalStorage.WithoutOtherEpisodesOfShow | app/src/main/java/com/example/kisskh/data/LocalStorage.kt:69 | keeps exactly the entries that are not of the same show with a different id, in order; nothing changes when there are none |
| LocalStorage.WithoutOtherEpisodesOfShowCounts | app/src/main/java/com/example/kisskh/data/LocalStorage.kt:69 | every copy of an entry of another show or of the same id survives, and no other entry |
| LocalStorage.WithoutShow | app/src/main/java/com/example/kisskh/data/LocalStorage.kt:100 | keeps exactly the entries of other shows, in order; nothing changes when the show has no entry |
| LocalStorage.WithoutShowCounts | app/src/main/java/com/example/kisskh/data/LocalStorage.kt:100 | every copy of an entry of another show survives, and no entry of this show |
| LocalStorage.AddToHistory | app/src/main/java/com/example/kisskh/data/LocalStorage.kt:63-80 | the episode is on top; no other entry shares its id or show; the others are an ordered sub-list of the old history; a history of at most 50 stays at most 50; the history invariant is kept; the watchlist is untouched |
| LocalStorage.AddToHistoryKeepsOthers | app/src/main/java/com/example/kisskh/data/LocalStorage.kt:75-77 | every old entry of a different episode and show survives, except possibly the oldest one |
| LocalStorage.AddToFullHistoryEvictsOldest | app/src/main/java/com/example/kisskh/data/LocalStorage.kt:72-77 | a new show on a full history of 50 unrelated entries evicts exactly the last one |
| LocalStorage.NewEpisodeOfShowSupersedes | app/src/main/java/com/example/kisskh/data/LocalStorage.kt:66-72 | starting a second episode of a show leaves only that episode |
| LocalStorage.AddAllToHistoryWellFormed | app/src/main/java/com/example/kisskh/data/LocalStorage.kt:63-80 | any run of episode starts keeps the history invariant and leaves the last one started on top |
| LocalStorage.MergedTitle | app/src/main/java/com/example/kisskh/data/LocalStorage.kt:89 | the caller's title when it supplies one, otherwise the stored entry's |
| LocalStorage.ProgressedExisting | app/src/main/java/com/example/kisskh/data/LocalStorage.kt:86-105 | the found entry moves to the top with the new timestamp, duration and merged title and every other field unchanged; the show's other entries go; every entry of other shows survives in order; the list never grows; the invariant is kept |
| LocalStorage.ProgressedFallback | app/src/main/java/com/example/kisskh/data/LocalStorage.kt:106-121 | the fallback episode goes on top; the show's other entries go; the rest stay in order; the cap of 50 holds; the invariant is kept when the id was absent |
| LocalStorage.UpdateHistoryProgress | app/src/main/java/com/example/kisskh/data/LocalStorage.kt:82-122 | with the id present, the first entry with it is written back on top with the new timestamp and duration and the merged title; with the id absent and a fallback episode, that episode is written on top with the given progress; with neither nothing changes; the watchlist is never touched |
| LocalStorage.UpdateHistoryProgressOnExisting | app/src/main/java/com/example/kisskh/data/LocalStorage.kt:84-105 | with the id present, the history becomes the found-entry update of the first entry with that id |
| LocalStorage.UpdateHistoryProgressOnAbsent | app/src/main/java/com/example/kisskh/data/LocalStorage.kt:106-121 | with the id absent, the history becomes the fallback episode, stamped with the given timestamp and duration, put in front |
| LocalStorage.UpdateHistoryProgressKeepsWellFormed | app/src/main/java/com/example/kisskh/data/LocalStorage.kt:82-122 | progress updates keep the history invariant when the fallback episode carries the updated id |
| LocalStorage.UpdateEpisodeMovieTitle | app/src/main/java/com/example/kisskh/data/LocalStorage.kt:124-135 | only the first entry with the id changes, only when it has no title, and it gets exactly that title in place; the length, the other entries and the invariant are kept |
| LocalStorage.UpdateEpisodeMovieTitleIdempotent | app/src/main/java/com/example/kisskh/data/LocalStorage.kt:124-135 | back-filling twice is back-filling once |
| AppRepository.MovieFromSearchItem | app/src/main/java/com/example/kisskh/data/AppRepository.kt:13-26 | a missing id gives "0"; a missing title gives "Unknown Title"; poster and banner are the image, or ""; the other fields are empty |
| AppRepository.SearchMovies | app/src/main/java/com/example/kisskh/data/AppRepository.kt:10-44 | one movie per search hit, in order; a failure gives exactly one sentinel with id "error", a title of "Err: " plus the message (or the error's text) and the stack trace as description |
| AppRepository.SearchHitsAreNotTheSentinel | app/src/main/java/com/example/kisskh/data/AppRepository.kt:13-26 | no movie from a successful search has the sentinel id |
| AppRepository.GetMovieDetails | app/src/main/java/com/example/kisskh/data/AppRepository.kt:46-65 | null exactly on failure; a missing description becomes "No description available."; the missing image, country and status become "" |
| AppRepository.EpisodeFromItem | app/src/main/java/com/example/kisskh/data/AppRepository.kt:70-78 | the episode carries the item's id, the argument show id, the printed number, the title "Episode " plus that number, an empty video URL, and no progress |
| AppRepository.GetEpisodes | app/src/main/java/com/example/kisskh/data/AppRepository.kt:67-84 | empty on failure and when the response has no episode list; otherwise one episode per item, in order |
| AppRepository.GetEpisodesKeepsIdsDistinct | app/src/main/java/com/example/kisskh/data/AppRepository.kt:70-78 | distinct item ids give distinct episode ids |
| AppRepository.GetStreamUrl | app/src/main/java/com/example/kisskh/data/AppRepository.kt:86-97 | "" on failure; otherwise the response's URL by its precedence |
| WebFallback.Slug | app/src/main/java/com/example/kisskh/ui/screens/DetailScreen.kt:208 | only letters, digits and hyphens remain, and it is never longer than the title |
| WebFallback.SlugIsSubsequence | app/src/main/java/com/example/kisskh/ui/screens/DetailScreen.kt:208 | the slug is the title, with spaces made hyphens, minus some characters, in order |
| WebFallback.SlugIdempotent | app/src/main/java/com/example/kisskh/MainActivity.kt:117 | slugging a slug changes nothing |
| WebFallback.SlugOfSlugText | app/src/main/java/com/example/kisskh/MainActivity.kt:117 | a text of letters, digits and hyphens is its own slug |
| WebFallback.SlugAppend | app/src/main/java/com/example/kisskh/MainActivity.kt:117 | the slug of a concatenation is the concatenation of the slugs |
| WebFallback.SlugSeparatesWords | app/src/main/java/com/example/kisskh/ui/screens/DetailScreen.kt:208 | a space between two words becomes exactly one hyphen between their slugs |
| WebFallback.WebFallbackUrl | app/src/main/java/com/example/kisskh/ui/screens/DetailScreen.kt:209 | the page URL is exactly the drama path, the slug, "/Episode-" and the episode number, "?id=" and the show id, then "&ep=", the episode id and the paging suffix |
| WebFallback.WebFallbackUrlIsWeb | app/src/main/java/com/example/kisskh/ui/screens/PlayerScreen.kt:64 | every fallback URL contains "kisskh.co", so the player opens it in web mode |
| DetailScreen.ShowHistory | app/src/main/java/com/example/kisskh/ui/screens/DetailScreen.kt:72-74 | keeps the history entries of this show and no other |
| DetailScreen.ShowHistoryCounts | app/src/main/java/com/example/kisskh/ui/screens/DetailScreen.kt:72-74 | every copy of each of the show's entries is kept, and nothing else |
| DetailScreen.ShowHistoryKeepsOrder | app/src/main/java/com/example/kisskh/ui/screens/DetailScreen.kt:72-74 | the show's entries keep their history order |
| DetailScreen.ShowHistoryOfWellFormedIsSingle | app/src/main/java/com/example/kisskh/ui/screens/DetailScreen.kt:72-74 | with the history invariant a show has at most one entry |
| DetailScreen.ResumeTarget | app/src/main/java/com/example/kisskh/ui/screens/DetailScreen.kt:79-82 | no target without episodes; otherwise the show's newest history entry, or else the last episode of the list |
| DetailScreen.ScrollRow | app/src/main/java/com/example/kisskh/ui/screens/DetailScreen.kt:78-91 | no scroll exactly when there is no target or its id is not in the list; otherwise the row is 3 header rows plus the first position of that id |
| DetailScreen.UnwatchedScrollsToLastRow | app/src/main/java/com/example/kisskh/ui/screens/DetailScreen.kt:82-90 | with no history for the show and distinct ids, the page scrolls to the row of the last episode |
| DetailScreen.ToggleWatchlist | app/src/main/java/com/example/kisskh/ui/screens/DetailScreen.kt:139-147 | the flag flips and the history is untouched |
| DetailScreen.ToggleAgreesWithStore | app/src/main/java/com/example/kisskh/ui/screens/DetailScreen.kt:139-147 | after a toggle, the flag agrees with the store's membership |
| DetailScreen.ToggleTwiceRestoresMembership | app/src/main/java/com/example/kisskh/ui/screens/DetailScreen.kt:139-147 | toggling twice from the store's state restores both the flag and the membership |
| DetailScreen.EpisodeClickUrl | app/src/main/java/com/example/kisskh/ui/screens/DetailScreen.kt:202-211 | a non-empty stream URL is played as is; an empty one is replaced by the web page URL |
| DetailScreen.EpisodeClickUrlNonEmpty | app/src/main/java/com/example/kisskh/ui/screens/DetailScreen.kt:202-211 | the player is never handed an empty URL |
| DetailScreen.ClickFallsBackWithoutStream | app/src/main/java/com/example/kisskh/ui/screens/DetailScreen.kt:202-211 | fed by the stream call, a click plays the site's page (a web-mode URL) when the call failed or the response's winning field is empty, and that field verbatim otherwise |
| MainActivity.InsertBy | app/src/main/java/com/example/kisskh/MainActivity.kt:101 | inserting into a key-sorted list keeps it sorted and adds nothing but the new element |
| MainActivity.InsertByPermutes | app/src/main/java/com/example/kisskh/MainActivity.kt:101 | inserting adds exactly one copy of the element |
| MainActivity.SortBy | app/src/main/java/com/example/kisskh/MainActivity.kt:101 | the result is ordered by key |
| MainActivity.SortByPermutes | app/src/main/java/com/example/kisskh/MainActivity.kt:101 | the result is a permutation of the input |
| MainActivity.EarliestBeyond | app/src/main/java/com/example/kisskh/MainActivity.kt:101-105 | reference answer on the unsorted list: none exactly when no key exceeds the current one; otherwise an element with the smallest key beyond it, the first such in list order |
| MainActivity.FindAfterSortIsEarliestBeyond | app/src/main/java/com/example/kisskh/MainActivity.kt:101-105 | `find` after the stable sort returns exactly the reference answer |
| MainActivity.NumberOf | app/src/main/java/com/example/kisskh/MainActivity.kt:98 | an unparsable episode number counts as 0 |
| MainActivity.NextEpisode | app/src/main/java/com/example/kisskh/MainActivity.kt:98-105 | a chosen episode is in the list and has a number beyond the current one |
| MainActivity.NextEpisodeIsSmallestBeyond | app/src/main/java/com/example/kisskh/MainActivity.kt:98-105 | the choice is the earliest-listed episode with the smallest number beyond the current one, and there is none exactly when no number exceeds it |
| MainActivity.NextVideoUrl | app/src/main/java/com/example/kisskh/MainActivity.kt:109-122 | the stream URL when non-empty; else the web page URL built from the show's title and the handler's show id; nothing exactly when the stream URL is empty and the details are missing |
| MainActivity.OnNextEpisode | app/src/main/java/com/example/kisskh/MainActivity.kt:90-138 | stays on the player when there is no next episode or no URL; otherwise replaces the player with the next episode's URL, ids, number and title |
| MainActivity.OnNextEpisodeMovesForward | app/src/main/java/com/example/kisskh/MainActivity.kt:101-131 | auto-play only ever moves to a higher episode number |
| MainActivity.AutoPlayWithoutStreamNeedsDetails | app/src/main/java/com/example/kisskh/MainActivity.kt:109-122 | when the next episode has no stream URL, auto-play stays on the player exactly when the details call failed, and otherwise plays the site's page named after the fetched title |
| MainActivity.PlayersBelowTop | app/src/main/java/com/example/kisskh/MainActivity.kt:144-161 | counts the consecutive player routes directly below the top, stopping at a non-player route (a missing route is non-player) |
| MainActivity.OnBack | app/src/main/java/com/example/kisskh/MainActivity.kt:141-162 | terminates after popping exactly 1 plus that count; the rest of the stack is untouched, and its new top is not a player route (or the stack is empty) |
| UpdateRepository.CleanTag | app/src/main/java/com/example/kisskh/data/UpdateRepository.kt:145 | a leading "v" is removed, then a leading "V": a tag without either is unchanged, "v" not followed by "V" and a leading "V" lose one character, "vV" loses two |
| UpdateRepository.ParseVersionCodeFromTag | app/src/main/java/com/example/kisskh/data/UpdateRepository.kt:142-164 | the code is a 32-bit value: for one to three dot-separated parts it is the parts' weighted code, for more it is the many-parts fallback |
| UpdateRepository.FewPartsCode | app/src/main/java/com/example/kisskh/data/UpdateRepository.kt:148-162 | any part that is not an integer gives 999, whatever the other parts are |
| UpdateRepository.FewPartsCodeOfValues | app/src/main/java/com/example/kisskh/data/UpdateRepository.kt:149-151 | parts that read as integers give a*10, a*10+b or a*100+b*10+c by their count, wrapped to 32 bits |
| Text.Split | app/src/main/java/com/example/kisskh/data/UpdateRepository.kt:146 | at least one piece; no piece contains the delimiter; joining the pieces with it gives the input back |
| Text.SplitJoin | app/src/main/java/com/example/kisskh/data/UpdateRepository.kt:146 | splitting pieces joined by a delimiter they do not contain gives the pieces back |
| Text.ParseInt | app/src/main/java/com/example/kisskh/data/UpdateRepository.kt:149-151 | a 32-bit value or an error; the empty text is an error; unsigned digit text reads as its value when it fits in an `Int` and is an error when it does not, and any other unsigned text is an error; `+` then digits reads as their value up to 2147483647, `-` then digits as its negation down to -2147483648, and a sign followed by nothing, a non-digit or a larger value is an error |
| Text.ParseIntRoundTrip | app/src/main/java/com/example/kisskh/data/UpdateRepository.kt:149-151 | printing a 32-bit number and reading it back gives the number |
| UpdateRepository.LeadingDigits | app/src/main/java/com/example/kisskh/data/UpdateRepository.kt:155 | the first three of the tag's digits, or all of them when there are fewer |
| UpdateRepository.VersionTagCode | app/src/main/java/com/example/kisskh/data/UpdateRepository.kt:142-152 | a tag "v" plus one to three dot-separated numbers gets a*10, a*10+b or a*100+b*10+c, wrapped to 32 bits |
| UpdateRepository.VersionTagParts | app/src/main/java/com/example/kisskh/data/UpdateRepository.kt:145-146 | cleaning and splitting such a tag gives back the spelled numbers, each reading back as its value |
| UpdateRepository.UnparsablePartGivesHighCode | app/src/main/java/com/example/kisskh/data/UpdateRepository.kt:148-162 | one non-integer part among one to three gives 999 |
| UpdateRepository.EmptyTagIsUnparsable | app/src/main/java/com/example/kisskh/data/UpdateRepository.kt:145-162 | the tags "" and "v" read as 999 |
| UpdateRepository.ManyPartsCode | app/src/main/java/com/example/kisskh/data/UpdateRepository.kt:153-157 | with four or more parts the code is a multiple of ten below 10000, and 10 when the tag has no digit |
| UpdateRepository.ParsedCodeBreaksReleaseOrder | app/src/main/java/com/example/kisskh/data/UpdateRepository.kt:149-152 | release a.(b+1) is newer than a.b.c but its tag gets the smaller code |
| UpdateRepository.PaddedTagCode | app/src/main/java/com/example/kisskh/data/UpdateRepository.kt:149-152 | the corrected parser weighs the parts as hundreds, tens and units whatever their count |
| UpdateRepository.PaddedCodeFollowsReleaseOrder | app/src/main/java/com/example/kisskh/data/UpdateRepository.kt:149-152 | with single-digit parts, the corrected code of an older release is smaller than that of a newer one |
| UpdateRepository.ApkDownloadUrl | app/src/main/java/com/example/kisskh/data/UpdateRepository.kt:108-119 | the URL of the first asset named "*.apk"; null without assets or without such an asset |
| UpdateRepository.PaddedAgreesFromThreeParts | app/src/main/java/com/example/kisskh/data/UpdateRepository.kt:152-157 | the corrected parser gives the same code as the source's on every tag of three or more parts |
| UpdateRepository.CheckForUpdates | app/src/main/java/com/example/kisskh/data/UpdateRepository.kt:67-140 | a failed fetch reports the installed version with no update; otherwise the parsed code, the tag minus one lowercase "v", the APK URL and the notes; an update is offered exactly when the fetch succeeded and the parsed code exceeds the installed one |
| UpdateRepository.OfferedUpdateIsNewer | app/src/main/java/com/example/kisskh/data/UpdateRepository.kt:121 | an offered update always has a higher code than the installed one |
| UpdateRepository.EmptyTagIsOffered | app/src/main/java/com/example/kisskh/data/UpdateRepository.kt:159-162 | with the source's parser, a release without a tag is offered to every installation whose code is below 999 |
| UpdateRepository.NewerReleaseNotOffered | app/src/main/java/com/example/kisskh/data/UpdateRepository.kt:105-121 | with the source's parser, and an installed code equal to the parsed code of the installed a.b.c tag, the newer release a.(b+1) is not offered |
| UpdateRepository.NewerReleaseOffered | app/src/main/java/com/example/kisskh/data/UpdateRepository.kt:105-121 | with the corrected parser, an installation of any release with single-digit parts is offered every newer one |
| Numeric.FloatToInt | app/src/main/java/com/example/kisskh/ui/screens/PlayerScreen.kt:762 | `toInt` stays in the 32-bit range; inside it, a value becomes its whole part rounded toward zero; a value at or above the `Int` maximum gives the maximum, and one at or below the minimum gives the minimum |
| Numeric.FloatToLong | app/src/main/java/com/example/kisskh/ui/screens/PlayerScreen.kt:156-160 | `toLong` stays in the 64-bit range; inside it, a value becomes its whole part rounded toward zero; a value at or above the `Long` maximum gives the maximum, and one at or below the minimum gives the minimum |
| PlayerScreen.Pad2 | app/src/main/java/com/example/kisskh/ui/screens/PlayerScreen.kt:765 | 0 to 9 print as "0" and the digit; 10 and above print as the plain decimal, without leading zeros; a negative number prints as its sign and digits |
| PlayerScreen.FormatTime | app/src/main/java/com/example/kisskh/ui/screens/PlayerScreen.kt:761-766 | for a non-negative time the text has at least five characters, with a colon before the last two |
| PlayerScreen.FormatTimeRoundTrip | app/src/main/java/com/example/kisskh/ui/screens/PlayerScreen.kt:761-766 | minutes times 60 plus seconds, read back from the text, is the whole number of seconds |
| PlayerScreen.FormatTimeSecondsField | app/src/main/java/com/example/kisskh/ui/screens/PlayerScreen.kt:762-765 | the seconds field is two digits below 60 |
| PlayerScreen.DetectEnd | app/src/main/java/com/example/kisskh/ui/screens/PlayerScreen.kt:237-240 | auto-play is requested exactly when the episode has not ended and the time is within a second of a duration above 1, and then the episode is marked ended |
| PlayerScreen.OnWebSample | app/src/main/java/com/example/kisskh/ui/screens/PlayerScreen.kt:220-240 | only a positive duration is taken; the player seeks exactly when a positive resume position is pending, to that position; otherwise the page's time is taken |
| PlayerScreen.OnNativeSample | app/src/main/java/com/example/kisskh/ui/screens/PlayerScreen.kt:385-393 | a reading with no positive duration changes nothing; otherwise time and duration are taken as reported; it never seeks |
| PlayerScreen.OnResume | app/src/main/java/com/example/kisskh/ui/screens/PlayerScreen.kt:111-126 | a positive saved position becomes both the pending seek and the shown time; zero changes nothing |
| PlayerScreen.Step | app/src/main/java/com/example/kisskh/ui/screens/PlayerScreen.kt:85-87 | a request marks the episode ended at its end; an episode change clears the end flag; a seek happens only on a web sample, once, to a positive position |
| PlayerScreen.PlaySession | app/src/main/java/com/example/kisskh/ui/screens/PlayerScreen.kt:225-240 | over any run of events: at most one seek, to a positive position; each auto-play request falls on a web or native sample; two requests always have an episode change between them, so one episode requests at most once |
| PlayerScreen.ResumeTime | app/src/main/java/com/example/kisskh/ui/screens/PlayerScreen.kt:108-111 | the timestamp of the first history entry with the episode id, or 0 without one |
| PlayerScreen.ListedEpisodesResumeFromStart | app/src/main/java/com/example/kisskh/ui/screens/PlayerScreen.kt:108-111 | a history holding only freshly built episodes, as the catalog lists them, resumes every episode from 0 |
| PlayerScreen.EntryFor | app/src/main/java/com/example/kisskh/ui/screens/PlayerScreen.kt:129-139 | the history record carries the playing episode's ids, number, titles and URL with the given progress |
| PlayerScreen.OnLoad | app/src/main/java/com/example/kisskh/ui/screens/PlayerScreen.kt:106-142 | with both ids non-empty, the episode goes on top of the history with its resume time and duration 0, and the resume time is applied; otherwise nothing changes |
| PlayerScreen.OnLoadKeepsPosition | app/src/main/java/com/example/kisskh/ui/screens/PlayerScreen.kt:108-139 | after loading, the top history entry is this episode and carries its old saved position |
| PlayerScreen.OnExit | app/src/main/java/com/example/kisskh/ui/screens/PlayerScreen.kt:145-163 | nothing is saved unless the time is positive and the episode has not ended; the watchlist is never touched |
| PlayerScreen.OnExitRecordsPosition | app/src/main/java/com/example/kisskh/ui/screens/PlayerScreen.kt:145-163 | a save puts the episode on top with the truncated time and duration, keeping the history invariant |

## Left out

- JSON encoding and decoding (Gson, `org.json`) are left out. A stored payload is either decoded or `Undecodable`, and a release is given already read.
- The asynchronous `apply()` write is left out. Each operation returns the new `Prefs`, and nothing is said about when it reaches disk.
- HTTP, Retrofit, OkHttp and coroutines are left out. Every response is an `Outcome` or a `ReleaseFetch` input. The `catch` branches become the `Failed` and `Threw` cases.
- The installed version code and name are parameters of `CheckForUpdates`. The package-manager lookup and its defaults are left out.
- APK download and install are left out.
- Compose rendering, focus, key handling, timers, WebView JavaScript and ExoPlayer are left out. Only the flag changes they drive appear, as `PlayerScreen.Event`s.
- `isPlaying`, `isBuffering` and the controls' visibility are left out. They decide nothing the model states.
- The asynchronous fetch of the show title in the player is left out. Its result, if any, is the `movieTitle` of `Playing`.
- URL encoding of navigation routes is left out. The navigation graph is modelled only as the stack of routes that `onBack` inspects.
- IEEE floats are modelled as reals: there is no rounding, NaN or infinity. `toFloatOrNull` and `Float.toString` are parameters, so episode numbers such as "1.0" depend on the parameter given.
- Only ASCII digits are modelled. `isDigit` and `toInt` accept other Unicode digits, which the model does not.
- PlayerScreen.Pad2: `String.format` uses the default locale, and some locales print non-ASCII digits; the model assumes a locale whose digits are ASCII.
- Numeric.FloatToInt, Numeric.FloatToLong: a `Float` is modelled as an exact real, so rounding of the `Float` itself and NaN (which `toInt` and `toLong` turn into 0) are not modelled.
- NetworkModels.StreamResponse.Url: the "Type" field is carried but unused, as in the source.
- LocalStorage.UpdateHistoryProgress returns nothing, as the code does.
- MainActivity.NextEpisode: its own contract states only membership and "beyond the current number". Minimality and the tie rule are in NextEpisodeIsSmallestBeyond.
- UpdateRepository.ManyPartsCode: its contract gives only the range and the no-digit case. The value is tied to LeadingDigits, whose contract says which digits are taken.
- LocalStorage.WithoutEpisode: its own contract states membership and order. How many copies of each entry survive is in WithoutEpisodeCounts.
- LocalStorage.WithoutShow: its own contract states membership and order. How many copies survive is in WithoutShowCounts.
- LocalStorage.WithoutOtherEpisodesOfShow: its own contract states membership and order. How many copies survive is in WithoutOtherEpisodesOfShowCounts.
- LocalStorage.WithoutMovie: its own contract states membership and order. How many copies survive is in WithoutMovieCounts.
- LocalStorage.RemoveFromWatchlist: its own contract states membership and order. How many copies survive is in RemoveFromWatchlistCounts.
- DetailScreen.ShowHistory: its own contract states membership. How many copies are kept is in ShowHistoryCounts, and the order in ShowHistoryKeepsOrder.
- MainActivity.InsertBy: its own contract states membership, not multiplicity. Multiplicity is in InsertByPermutes.
- UpdateRepository.CheckForUpdates takes the tag parser as a parameter, so that it can be run with either the source's parser or the corrected one. The lemmas about it name which parser they use.

## Findings

| source | as written | input that shows it | evidently intended | confidence | as-written member | corrected member |
|---|---|---|---|---|---|---|
| app/src/main/java/com/example/kisskh/data/UpdateRepository.kt:149-152 | two-part tags weigh the parts as tens and units, three-part tags as hundreds, tens and units | tag "v2.2" gives 22 while "v2.1.1" gives 211, so an installation whose version code is its own tag's code, 211 for 2.1.1, is never offered 2.2; the app compares against the declared version code, which app/build.gradle.kts sets to 3 for "2.1", so under that build the effect does not show | codes that grow with the release (each part at a fixed weight, whatever the part count) | not executed | UpdateRepository.NewerReleaseNotOffered | UpdateRepository.NewerReleaseOffered |
