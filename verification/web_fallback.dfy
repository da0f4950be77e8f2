/** The kisskh.co page URL the app plays in a web view when the API gives
    no stream URL for an episode. */
module WebFallback {
  import opened Seqs
  import opened Text

  /** The characters the slug keeps: the complement of `[^a-zA-Z0-9-]`. */
  predicate IsSlugChar(c: char)
  {
    'a' <= c <= 'z' || 'A' <= c <= 'Z' || '0' <= c <= '9' || c == '-'
  }

  /** `replace(" ", "-")`: every space becomes a hyphen. */
  function SpacesToHyphens(s: string): (r: string)
    ensures |r| == |s|
    ensures forall i :: 0 <= i < |s| ==> r[i] == (if s[i] == ' ' then '-' else s[i])
  {
    seq(|s|, i requires 0 <= i < |s| => if s[i] == ' ' then '-' else s[i])
  }

  /** The title as it appears in the site's paths: spaces turned into
      hyphens, then every character outside `[a-zA-Z0-9-]` dropped. */
  function Slug(title: string): (slug: string)
    ensures forall i :: 0 <= i < |slug| ==> IsSlugChar(slug[i])
    ensures |slug| <= |title|
  {
    Filter(SpacesToHyphens(title), IsSlugChar)
  }

  /** The slug keeps the kept characters of the title in their order. */
  lemma SlugIsSubsequence(title: string)
    ensures IsSubsequence(Slug(title), SpacesToHyphens(title))
  {
    FilterIsSubsequence(SpacesToHyphens(title), IsSlugChar);
  }

  /** A title that is already slug text is its own slug. */
  lemma SlugOfSlugText(t: string)
    requires forall i :: 0 <= i < |t| ==> IsSlugChar(t[i])
    ensures Slug(t) == t
  {
    assert SpacesToHyphens(t) == t;
    FilterKeepsAll(t, IsSlugChar);
  }

  lemma SlugIdempotent(title: string)
    ensures Slug(Slug(title)) == Slug(title)
  {
    SlugOfSlugText(Slug(title));
  }

  /** Slugging works piece by piece: a title's slug is the slugs of its
      parts, concatenated. */
  lemma SlugAppend(a: string, b: string)
    ensures Slug(a + b) == Slug(a) + Slug(b)
  {
    assert SpacesToHyphens(a + b) == SpacesToHyphens(a) + SpacesToHyphens(b);
    FilterAppend(SpacesToHyphens(a), SpacesToHyphens(b), IsSlugChar);
  }

  /** Words separated by a space stay separated, by a hyphen. */
  lemma SlugSeparatesWords(a: string, b: string)
    ensures Slug(a + " " + b) == Slug(a) + "-" + Slug(b)
  {
    SlugAppend(a + " ", b);
    SlugAppend(a, " ");
    assert SpacesToHyphens(" ") == "-";
    SlugOfSlugText("-");
  }

  const PagePrefix: string := "https://kisskh.co/Drama/"
  const PageSuffix: string := "&page=0&pageSize=100"

  /** `https://kisskh.co/Drama/<slug>/Episode-<number>?id=<movie>&ep=<episode>&page=0&pageSize=100`,
      with the pieces inserted verbatim: the URL is the page head, then the
      movie id exactly, then the episode tail, and nothing more. */
  function WebFallbackUrl(title: string, episodeNumber: string, movieId: string, episodeId: string): (url: string)
    ensures StartsWith(url, PagePrefix + Slug(title) + "/Episode-" + episodeNumber + "?id=")
    ensures EndsWith(url, "&ep=" + episodeId + PageSuffix)
    ensures var head := PagePrefix + Slug(title) + "/Episode-" + episodeNumber + "?id=";
      |url| == |head| + |movieId| + |"&ep=" + episodeId + PageSuffix| &&
      url[|head|..|head| + |movieId|] == movieId
  {
    var head := PagePrefix + Slug(title) + "/Episode-" + episodeNumber + "?id=";
    var tail := "&ep=" + episodeId + PageSuffix;
    var url := head + movieId + tail;
    assert url[..|head|] == head;
    assert url[|head|..|head| + |movieId|] == movieId;
    assert url[|url| - |tail|..] == tail;
    url
  }

  /** Every fallback URL names the site host, so the player opens it in
      web mode. */
  lemma WebFallbackUrlIsWeb(title: string, episodeNumber: string, movieId: string, episodeId: string)
    ensures Contains(WebFallbackUrl(title, episodeNumber, movieId, episodeId), "kisskh.co")
  {
    var url := WebFallbackUrl(title, episodeNumber, movieId, episodeId);
    assert url[..|PagePrefix|] == PagePrefix;
    assert PagePrefix[8..17] == "kisskh.co";
    assert url[8..17] == PagePrefix[8..17];
    assert OccursAt(url, "kisskh.co", 8);
  }
}
