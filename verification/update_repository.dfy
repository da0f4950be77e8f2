/** The self-update check: turning a release tag into a version code,
    choosing the APK asset and deciding whether an update is offered.
    The HTTP request is an input (`ReleaseFetch`); the installed version
    code and name are parameters. */
module UpdateRepository {
  import opened Nullable
  import opened Numeric
  import opened Seqs
  import opened Text

  /** The code reported when a tag of one to three parts does not parse:
      high, so that an update is offered. */
  const UnparsableTagCode: int := 999

  /** The tag with one leading lower-case "v" removed and then one
      leading upper-case "V": "vV" loses both, "Vv" only the "V". */
  function CleanTag(tag: string): (r: string)
    ensures tag == r || tag == "v" + r || tag == "V" + r || tag == "vV" + r
    ensures (|tag| == 0 || (tag[0] != 'v' && tag[0] != 'V')) ==> r == tag
    ensures |tag| >= 1 && tag[0] == 'v' && (|tag| == 1 || tag[1] != 'V') ==> r == tag[1..]
    ensures |tag| >= 1 && tag[0] == 'V' ==> r == tag[1..]
    ensures |tag| >= 2 && tag[0] == 'v' && tag[1] == 'V' ==> r == tag[2..]
  {
    var r := RemovePrefix(RemovePrefix(tag, "v"), "V");
    assert StartsWith(tag, "v") && StartsWith(tag[1..], "V") ==> tag == "vV" + tag[2..];
    r
  }

  /** The first three digits of the cleaned tag, or all of them when it
      has fewer. */
  function LeadingDigits(clean: string): (d: string)
    ensures |d| <= 3 && AllDigits(d)
    ensures d <= Filter(clean, IsDigit)
    ensures |d| == 3 || d == Filter(clean, IsDigit)
  {
    var digits := Filter(clean, IsDigit);
    digits[..if |digits| < 3 then |digits| else 3]
  }

  /** `parseVersionCodeFromTag(tag)`: the parts between dots weighted as
      a*10, a*10+b or a*100+b*10+c, in wrapping `Int` arithmetic; 999 when
      such a part is not an integer; with four or more parts, ten times the
      tag's first three digits, or 10 when it has none. */
  function ParseVersionCodeFromTag(tag: string): (code: int)
    ensures IsInt32(code)
    ensures var parts := Split(CleanTag(tag), '.');
      |parts| <= 3 ==> code == FewPartsCode(parts)
    ensures |Split(CleanTag(tag), '.')| > 3 ==> code == ManyPartsCode(CleanTag(tag))
  {
    var clean := CleanTag(tag);
    var parts := Split(clean, '.');
    if |parts| <= 3 then FewPartsCode(parts) else ManyPartsCode(clean)
  }

  /** The code of one to three parts: weighted, or 999 when one of them
      is not an integer. */
  function FewPartsCode(parts: seq<string>): (code: int)
    requires 1 <= |parts| <= 3
    ensures IsInt32(code)
    ensures (exists i :: 0 <= i < |parts| && ParseInt(parts[i]).None?) ==> code == UnparsableTagCode
  {
    if |parts| == 1 then
      match ParseInt(parts[0])
      case Some(a) => Wrap32(a * 10)
      case None => UnparsableTagCode
    else if |parts| == 2 then
      match (ParseInt(parts[0]), ParseInt(parts[1]))
      case (Some(a), Some(b)) => Wrap32(a * 10 + b)
      case _ => UnparsableTagCode
    else
      match (ParseInt(parts[0]), ParseInt(parts[1]), ParseInt(parts[2]))
      case (Some(a), Some(b), Some(c)) => Wrap32(a * 100 + b * 10 + c)
      case _ => UnparsableTagCode
  }

  /** A release without a tag reads as version 999. */
  lemma EmptyTagIsUnparsable()
    ensures ParseVersionCodeFromTag("") == UnparsableTagCode
    ensures ParseVersionCodeFromTag("v") == UnparsableTagCode
  {
    assert CleanTag("v") == "";
    assert Split("", '.') == [""];
  }

  /** A part that is not an integer makes a tag of one to three parts
      read as 999, whatever the other parts are. */
  lemma UnparsablePartGivesHighCode(tag: string, i: nat)
    requires |Split(CleanTag(tag), '.')| <= 3
    requires i < |Split(CleanTag(tag), '.')|
    requires ParseInt(Split(CleanTag(tag), '.')[i]).None?
    ensures ParseVersionCodeFromTag(tag) == UnparsableTagCode
  {
  }

  /** The code of a tag with four or more parts: ten times the cleaned
      tag's first three digits read as a number, or 10 without digits;
      a multiple of ten below 10000. */
  function ManyPartsCode(clean: string): (code: int)
    ensures 0 <= code <= 9990 && code % 10 == 0
    ensures (forall i :: 0 <= i < |clean| ==> !IsDigit(clean[i])) ==> code == 10
  {
    var first := LeadingDigits(clean);
    if |first| == 0 then 10
    else
      DigitsValueBound(first);
      assert Pow10(|first|) <= 1000 by {
        assert Pow10(1) == 10 && Pow10(2) == 100 && Pow10(3) == 1000;
      }
      DigitsValue(first) * 10
  }

  lemma {:induction false} DigitsValueBound(s: string)
    requires AllDigits(s)
    ensures DigitsValue(s) < Pow10(|s|)
    decreases |s|
  {
    if |s| > 0 {
      DigitsValueBound(s[..|s| - 1]);
    }
  }

  function Pow10(n: nat): (p: nat)
    ensures p >= 1
  {
    if n == 0 then 1 else 10 * Pow10(n - 1)
  }

  // ---------------------------------------------------------------------
  // Tags written the usual way: "v" and dot-separated numbers

  /** The decimal spellings of `parts`. */
  function Spellings(parts: seq<nat>): (strs: seq<string>)
    ensures |strs| == |parts|
    ensures forall i :: 0 <= i < |parts| ==> strs[i] == NatToString(parts[i])
  {
    seq(|parts|, i requires 0 <= i < |parts| => NatToString(parts[i]))
  }

  /** `"v" + parts.joinToString(".")` */
  function VersionTag(parts: seq<nat>): (tag: string)
    requires |parts| >= 1
  {
    "v" + Join(Spellings(parts), '.')
  }

  /** Cleaning and splitting a usual tag gives back the spelled parts,
      each of which reads back as its number. */
  lemma VersionTagParts(parts: seq<nat>)
    requires |parts| >= 1
    requires forall i :: 0 <= i < |parts| ==> IsInt32(parts[i])
    ensures Split(CleanTag(VersionTag(parts)), '.') == Spellings(parts)
    ensures forall i :: 0 <= i < |parts| ==> ParseInt(Spellings(parts)[i]) == Some(parts[i] as int)
  {
    var strs := Spellings(parts);
    var joined := Join(strs, '.');
    assert joined[0] == strs[0][0] by {
      JoinStartsWith(strs, '.');
    }
    assert IsDigit(strs[0][0]);
    assert CleanTag(VersionTag(parts)) == joined by {
      assert ("v" + joined)[1..] == joined;
    }
    forall i | 0 <= i < |strs|
      ensures '.' !in strs[i]
    {
      assert AllDigits(strs[i]);
    }
    SplitJoin(strs, '.');
    forall i | 0 <= i < |parts|
      ensures ParseInt(strs[i]) == Some(parts[i] as int)
    {
      ParseIntRoundTrip(parts[i]);
    }
  }

  lemma JoinStartsWith(parts: seq<string>, sep: char)
    requires |parts| >= 1
    ensures StartsWith(Join(parts, sep), parts[0])
  {
  }

  /** The code of a usual tag is the weighted sum of its numbers. */
  lemma VersionTagCode(parts: seq<nat>)
    requires 1 <= |parts| <= 3
    requires forall i :: 0 <= i < |parts| ==> IsInt32(parts[i])
    ensures ParseVersionCodeFromTag(VersionTag(parts)) == Wrap32(Weighted(parts))
  {
    VersionTagParts(parts);
    CodeFromParsedParts(VersionTag(parts), parts);
  }

  /** The weights the parser gives one, two or three numbers. */
  function Weighted(values: seq<int>): int
  {
    if |values| == 3 then Part(values, 0) * 100 + Part(values, 1) * 10 + Part(values, 2)
    else Part(values, 0) * 10 + Part(values, 1)
  }

  /** A tag whose one to three parts all read as integers gets their
      weighted sum, wrapped to `Int`. */
  lemma CodeFromParsedParts(tag: string, values: seq<int>)
    requires 1 <= |values| <= 3
    requires |Split(CleanTag(tag), '.')| == |values|
    requires forall i :: 0 <= i < |values| ==> ParseInt(Split(CleanTag(tag), '.')[i]) == Some(values[i])
    ensures ParseVersionCodeFromTag(tag) == Wrap32(Weighted(values))
  {
    var split := Split(CleanTag(tag), '.');
    FewPartsCodeOfValues(split, values);
  }

  lemma FewPartsCodeOfValues(parts: seq<string>, values: seq<int>)
    requires 1 <= |parts| == |values| <= 3
    requires forall i :: 0 <= i < |values| ==> ParseInt(parts[i]) == Some(values[i])
    ensures FewPartsCode(parts) == Wrap32(Weighted(values))
  {
    assert ParseInt(parts[0]) == Some(values[0]);
    if |values| >= 2 {
      assert ParseInt(parts[1]) == Some(values[1]);
    }
    if |values| == 3 {
      assert ParseInt(parts[2]) == Some(values[2]);
    }
  }

  /** Part `i` of a release version, 0 where the version has fewer parts. */
  function Part(p: seq<int>, i: nat): int
  {
    if i < |p| then p[i] else 0
  }

  /** Release versions compared part by part, a missing part counting as 0. */
  predicate VersionLess(p: seq<nat>, q: seq<nat>)
  {
    || Part(p, 0) < Part(q, 0)
    || (Part(p, 0) == Part(q, 0) && Part(p, 1) < Part(q, 1))
    || (Part(p, 0) == Part(q, 0) && Part(p, 1) == Part(q, 1) && Part(p, 2) < Part(q, 2))
  }

  /** The code the parser gives a tag does not follow release order: a
      two-part tag a.(b+1) names a newer release than the three-part tag
      a.b.c, yet gets the smaller code (for 2.1.1 and 2.2: 211 against 22),
      so a user on a.b.c is never offered a.(b+1). */
  lemma ParsedCodeBreaksReleaseOrder(older: seq<nat>, newer: seq<nat>)
    requires |older| == 3 && |newer| == 2
    requires forall i :: 0 <= i < |older| ==> older[i] < 10
    requires forall i :: 0 <= i < |newer| ==> newer[i] < 10
    requires newer[0] == older[0] >= 1 && newer[1] == older[1] + 1
    ensures VersionLess(older, newer)
    ensures ParseVersionCodeFromTag(VersionTag(newer)) < ParseVersionCodeFromTag(VersionTag(older))
  {
    VersionTagCode(newer);
    VersionTagCode(older);
    assert 0 <= Weighted(newer) <= 99;
    assert 100 <= Weighted(older) <= 999;
  }

  /** Every part count weighted as hundreds, tens and units. */
  function PaddedWeighted(values: seq<int>): int
  {
    Part(values, 0) * 100 + Part(values, 1) * 10 + Part(values, 2)
  }

  /** The corrected parser: like `ParseVersionCodeFromTag`, but one to
      three parts are always weighted a*100 + b*10 + c, a missing part
      read as 0. */
  function ParsePaddedVersionCode(tag: string): (code: int)
    ensures IsInt32(code)
  {
    var clean := CleanTag(tag);
    var parts := Split(clean, '.');
    if |parts| <= 3 then PaddedPartsCode(parts) else ManyPartsCode(clean)
  }

  function PaddedPartsCode(parts: seq<string>): (code: int)
    requires 1 <= |parts| <= 3
    ensures IsInt32(code)
  {
    if |parts| == 1 then
      match ParseInt(parts[0])
      case Some(a) => Wrap32(a * 100)
      case None => UnparsableTagCode
    else if |parts| == 2 then
      match (ParseInt(parts[0]), ParseInt(parts[1]))
      case (Some(a), Some(b)) => Wrap32(a * 100 + b * 10)
      case _ => UnparsableTagCode
    else
      match (ParseInt(parts[0]), ParseInt(parts[1]), ParseInt(parts[2]))
      case (Some(a), Some(b), Some(c)) => Wrap32(a * 100 + b * 10 + c)
      case _ => UnparsableTagCode
  }

  lemma PaddedPartsCodeOfValues(parts: seq<string>, values: seq<int>)
    requires 1 <= |parts| == |values| <= 3
    requires forall i :: 0 <= i < |values| ==> ParseInt(parts[i]) == Some(values[i])
    ensures PaddedPartsCode(parts) == Wrap32(PaddedWeighted(values))
  {
    assert ParseInt(parts[0]) == Some(values[0]);
    if |values| >= 2 {
      assert ParseInt(parts[1]) == Some(values[1]);
    }
    if |values| == 3 {
      assert ParseInt(parts[2]) == Some(values[2]);
    }
  }

  lemma PaddedCodeFromParsedParts(tag: string, values: seq<int>)
    requires 1 <= |values| <= 3
    requires |Split(CleanTag(tag), '.')| == |values|
    requires forall i :: 0 <= i < |values| ==> ParseInt(Split(CleanTag(tag), '.')[i]) == Some(values[i])
    ensures ParsePaddedVersionCode(tag) == Wrap32(PaddedWeighted(values))
  {
    PaddedPartsCodeOfValues(Split(CleanTag(tag), '.'), values);
  }

  /** The corrected code of a usual tag: its parts as hundreds, tens and units. */
  lemma PaddedTagCode(parts: seq<nat>)
    requires 1 <= |parts| <= 3
    requires forall i :: 0 <= i < |parts| ==> IsInt32(parts[i])
    ensures ParsePaddedVersionCode(VersionTag(parts)) == Wrap32(PaddedWeighted(parts))
  {
    VersionTagParts(parts);
    PaddedCodeFromParsedParts(VersionTag(parts), parts);
  }

  /** The correction changes only tags of one or two parts. */
  lemma PaddedAgreesFromThreeParts(tag: string)
    requires |Split(CleanTag(tag), '.')| >= 3
    ensures ParsePaddedVersionCode(tag) == ParseVersionCodeFromTag(tag)
  {
  }

  /** With single-digit parts the corrected code follows release order,
      whatever the number of parts. */
  lemma PaddedCodeFollowsReleaseOrder(p: seq<nat>, q: seq<nat>)
    requires 1 <= |p| <= 3 && 1 <= |q| <= 3
    requires forall i :: 0 <= i < |p| ==> p[i] < 10
    requires forall i :: 0 <= i < |q| ==> q[i] < 10
    requires VersionLess(p, q)
    ensures ParsePaddedVersionCode(VersionTag(p)) < ParsePaddedVersionCode(VersionTag(q))
  {
    PaddedTagCode(p);
    PaddedTagCode(q);
    assert 0 <= Part(p, 0) < 10 && 0 <= Part(p, 1) < 10 && 0 <= Part(p, 2) < 10;
    assert 0 <= Part(q, 0) < 10 && 0 <= Part(q, 1) < 10 && 0 <= Part(q, 2) < 10;
    assert 0 <= PaddedWeighted(p) < PaddedWeighted(q) <= 999;
  }

  // ---------------------------------------------------------------------
  // The release answer and the update decision

  /** One downloadable file of a release; `browser_download_url` may be missing. */
  datatype Asset = Asset(name: string, downloadUrl: Option<string>)

  /** The fields of the latest release, absent strings already read as "". */
  datatype Release = Release(tagName: string, body: string, assets: Option<seq<Asset>>)

  /** How the request for the latest release ended. */
  datatype ReleaseFetch =
    | NotSuccessful   // an HTTP error status
    | NoBody          // a success without a body
    | Threw           // the call or the JSON parsing threw
    | Fetched(release: Release)

  /** What the update screen is told. */
  datatype UpdateInfo = UpdateInfo(
    isUpdateAvailable: bool,
    latestVersionCode: int,
    latestVersionName: string,
    downloadUrl: Option<string>,
    releaseNotes: Option<string>)

  predicate IsApk(a: Asset)
  {
    EndsWith(a.name, ".apk")
  }

  predicate FirstApkAt(assets: seq<Asset>, i: int)
  {
    0 <= i < |assets| && IsApk(assets[i]) && forall j :: 0 <= j < i ==> !IsApk(assets[j])
  }

  /** The download URL of the first asset named "*.apk" (even if that one
      has no URL); `None` when no asset qualifies. */
  function ApkDownloadUrl(assets: Option<seq<Asset>>): (u: Option<string>)
    ensures assets.None? ==> u.None?
    ensures assets.Some? && (forall i :: 0 <= i < |assets.value| ==> !IsApk(assets.value[i])) ==> u.None?
    ensures assets.Some? ==> forall i :: FirstApkAt(assets.value, i) ==> u == assets.value[i].downloadUrl
  {
    match assets
    case None => None
    case Some(list) =>
      var i := IndexOfFirst(list, IsApk);
      if i == -1 then None else list[i].downloadUrl
  }

  /** `checkForUpdates`: nothing offered, and the installed version
      reported, unless the release was fetched; otherwise the tag's code,
      the tag without a leading "v", the APK's URL and the notes, with an
      update offered exactly when the code is larger than the installed one.
      The tag parser is a parameter: the source's `ParseVersionCodeFromTag`
      or the corrected `ParsePaddedVersionCode`. */
  function CheckForUpdates(currentCode: Int32, currentName: string, fetch: ReleaseFetch,
                           versionCode: string -> int): (info: UpdateInfo)
    ensures !fetch.Fetched? ==> info == UpdateInfo(false, currentCode, currentName, None, None)
    ensures fetch.Fetched? ==>
      var rel := fetch.release;
      && info.latestVersionCode == versionCode(rel.tagName)
      && (StartsWith(rel.tagName, "v") ==> "v" + info.latestVersionName == rel.tagName)
      && (!StartsWith(rel.tagName, "v") ==> info.latestVersionName == rel.tagName)
      && info.downloadUrl == ApkDownloadUrl(rel.assets)
      && info.releaseNotes == Some(rel.body)
    ensures info.isUpdateAvailable <==> fetch.Fetched? && info.latestVersionCode > currentCode
  {
    match fetch
    case Fetched(rel) =>
      var code := versionCode(rel.tagName);
      UpdateInfo(code > currentCode, code, RemovePrefix(rel.tagName, "v"), ApkDownloadUrl(rel.assets), Some(rel.body))
    case _ => UpdateInfo(false, currentCode, currentName, None, None)
  }

  /** An offered update always carries a code above the installed one. */
  lemma OfferedUpdateIsNewer(currentCode: Int32, currentName: string, fetch: ReleaseFetch,
                             versionCode: string -> int)
    ensures var info := CheckForUpdates(currentCode, currentName, fetch, versionCode);
      info.isUpdateAvailable ==> info.latestVersionCode > currentCode
  {
  }

  /** A release tagged without parseable parts is offered to every
      installation whose code is below 999. */
  lemma EmptyTagIsOffered(currentCode: Int32, currentName: string, body: string, assets: Option<seq<Asset>>)
    requires currentCode < UnparsableTagCode
    ensures CheckForUpdates(currentCode, currentName, Fetched(Release("", body, assets)),
                            ParseVersionCodeFromTag).isUpdateAvailable
  {
    EmptyTagIsUnparsable();
  }

  /** With the source's parser, an installation of a.b.c is not offered
      the newer release a.(b+1), provided the installed version code is the
      code the parser gives a.b.c's own tag. The app compares against the
      package's declared version code instead, which need not follow the
      tag scheme: app/build.gradle.kts declares code 3 for version "2.1". */
  lemma NewerReleaseNotOffered(older: seq<nat>, newer: seq<nat>, currentName: string, body: string,
                               assets: Option<seq<Asset>>)
    requires |older| == 3 && |newer| == 2
    requires forall i :: 0 <= i < |older| ==> older[i] < 10
    requires forall i :: 0 <= i < |newer| ==> newer[i] < 10
    requires newer[0] == older[0] >= 1 && newer[1] == older[1] + 1
    ensures VersionLess(older, newer)
    ensures var installed := ParseVersionCodeFromTag(VersionTag(older));
      !CheckForUpdates(installed, currentName, Fetched(Release(VersionTag(newer), body, assets)),
                       ParseVersionCodeFromTag).isUpdateAvailable
  {
    ParsedCodeBreaksReleaseOrder(older, newer);
  }

  /** With the corrected parser, an installation of any release whose
      code is its tag's code is offered every newer release. */
  lemma NewerReleaseOffered(p: seq<nat>, q: seq<nat>, currentName: string, body: string,
                            assets: Option<seq<Asset>>)
    requires 1 <= |p| <= 3 && 1 <= |q| <= 3
    requires forall i :: 0 <= i < |p| ==> p[i] < 10
    requires forall i :: 0 <= i < |q| ==> q[i] < 10
    requires VersionLess(p, q)
    ensures var installed := ParsePaddedVersionCode(VersionTag(p));
      CheckForUpdates(installed, currentName, Fetched(Release(VersionTag(q), body, assets)),
                      ParsePaddedVersionCode).isUpdateAvailable
  {
    PaddedCodeFollowsReleaseOrder(p, q);
  }
}
