/**
 * The update check: reading a version and a build number out of a release
 * tag, deciding whether a remote release is newer than the running version,
 * and picking the platform's download.
 */
module Update {
  import opened Wrappers
  import opened Text
  import opened Numeric
  import opened Semver

  /** `parse_version`: drop every leading `v`, keep the text before the first `-`. */
  function ParseVersion(tag: string): (r: Option<string>)
    ensures r.Some?
    ensures var t := TrimStartMatches(tag, "v");
      && StartsWith(t, r.value) && '-' !in r.value
      && (|r.value| < |t| ==> t[|r.value|] == '-')
    ensures !StartsWith(r.value, "v")
  {
    var t := TrimStartMatches(tag, "v");
    var first := SplitOn(t, '-')[0];
    SplitOnFirst(t, '-');
    Some(first)
  }

  /** The first piece of a split is a prefix that stops at the first separator. */
  lemma SplitOnFirst(s: string, sep: char)
    ensures var first := SplitOn(s, sep)[0];
      StartsWith(s, first) && (|first| < |s| ==> s[|first|] == sep)
  {
    match IndexOf(s, sep)
    case None =>
    case Some(i) =>
  }

  /** `parse_build_number`: the `for` loop over the `-`-separated parts of the tag. */
  function ParseBuildNumber(tag: string): (r: Option<nat>)
    ensures r.Some? ==> r.value < U32_LIMIT
  {
    BuildNumberIn(SplitOn(tag, '-'))
  }

  /** A part that the loop stops at: it starts with `build`. */
  predicate IsBuildPart(part: string)
  {
    StartsWith(part, "build")
  }

  /** `part.trim_start_matches("build").parse::<u32>().ok()`. */
  function BuildValue(part: string): (r: Option<nat>)
    ensures r.Some? ==> r.value < U32_LIMIT
  {
    ParseUnsigned(TrimStartMatches(part, "build"), U32_LIMIT)
  }

  /** The `for` loop: the first part starting with `build` is parsed, and the search ends there. */
  function BuildNumberIn(parts: seq<string>): (r: Option<nat>)
    ensures r.Some? ==> r.value < U32_LIMIT
  {
    if parts == [] then None
    else if IsBuildPart(parts[0]) then BuildValue(parts[0])
    else BuildNumberIn(parts[1..])
  }

  /**
   * The search decides by the FIRST part starting with `build`: by whether
   * what follows the `build` prefixes parses as a `u32`; no later part is
   * looked at.  Without such a part there is no build number.
   */
  lemma {:induction false} BuildNumberSearch(parts: seq<string>)
    ensures (forall i :: 0 <= i < |parts| ==> !IsBuildPart(parts[i])) ==> BuildNumberIn(parts) == None
    ensures forall i :: 0 <= i < |parts| && IsBuildPart(parts[i]) && (forall j :: 0 <= j < i ==> !IsBuildPart(parts[j])) ==>
      BuildNumberIn(parts) == BuildValue(parts[i])
  {
    if parts == [] {
    } else if IsBuildPart(parts[0]) {
      forall i | 0 <= i < |parts| && IsBuildPart(parts[i]) && (forall j :: 0 <= j < i ==> !IsBuildPart(parts[j]))
        ensures i == 0
      {
      }
    } else {
      var tail := parts[1..];
      BuildNumberSearch(tail);
      assert BuildNumberIn(parts) == BuildNumberIn(tail);
      forall i | 0 <= i < |parts| && IsBuildPart(parts[i]) && (forall j :: 0 <= j < i ==> !IsBuildPart(parts[j]))
        ensures BuildNumberIn(parts) == BuildValue(parts[i])
      {
        assert tail[i - 1] == parts[i];
        forall j | 0 <= j < i - 1
          ensures !IsBuildPart(tail[j])
        {
          assert tail[j] == parts[j + 1];
        }
      }
      if forall i :: 0 <= i < |parts| ==> !IsBuildPart(parts[i]) {
        forall j | 0 <= j < |tail|
          ensures !IsBuildPart(tail[j])
        {
          assert tail[j] == parts[j + 1];
        }
      }
    }
  }

  /** The build number that counts when versions tie: a missing one counts as 0. */
  function BuildOrZero(tag: string): (r: nat)
    ensures r < U32_LIMIT
    ensures ParseBuildNumber(tag).None? ==> r == 0
    ensures ParseBuildNumber(tag).Some? ==> r == ParseBuildNumber(tag).value
  {
    ParseBuildNumber(tag).UnwrapOr(0)
  }

  /**
   * `is_newer_version`: by version precedence when both versions parse, by
   * build number when they tie, and by plain inequality of the version texts
   * when either does not parse.
   */
  function IsNewerVersion(current: string, remote: string, currentTag: string, remoteTag: string): (r: bool)
    // a release is never newer than the same version with the same tag
    ensures r ==> remote != current || remoteTag != currentTag
    // without parsable versions only the texts count; otherwise a newer remote never has lower precedence
    ensures Parse(current).None? || Parse(remote).None? ==> (r <==> remote != current)
    ensures r && Parse(current).Some? && Parse(remote).Some? ==> !Less(Parse(remote).value, Parse(current).value)
  {
    match (Parse(current), Parse(remote))
    case (Some(c), Some(r)) =>
      if Less(c, r) then true
      else if Less(r, c) then false
      else BuildOrZero(remoteTag) > BuildOrZero(currentTag)
    case _ => remote != current
  }

  /** Lexicographic order on equal-length sequences of numbers: the reference order. */
  predicate LexLess(a: seq<nat>, b: seq<nat>)
    requires |a| == |b|
  {
    a != [] && (a[0] < b[0] || (a[0] == b[0] && LexLess(a[1..], b[1..])))
  }

  /** A release's position in the order: its version fields, then its build number. */
  function Key(v: Version, build: nat): seq<nat>
  {
    [v.major, v.minor, v.patch, build]
  }

  /** The lexicographic order on four fields, written out. */
  lemma LexLessFour(a: seq<nat>, b: seq<nat>)
    requires |a| == 4 && |b| == 4
    ensures LexLess(a, b) <==>
      a[0] < b[0] || (a[0] == b[0] && (a[1] < b[1] || (a[1] == b[1] && (a[2] < b[2] || (a[2] == b[2] && a[3] < b[3])))))
  {
    var a1, b1 := a[1..], b[1..];
    var a2, b2 := a1[1..], b1[1..];
    var a3, b3 := a2[1..], b2[1..];
    assert a3[1..] == [] && b3[1..] == [];
    assert LexLess(a3, b3) <==> a[3] < b[3];
    assert LexLess(a2, b2) <==> a[2] < b[2] || (a[2] == b[2] && LexLess(a3, b3));
    assert LexLess(a1, b1) <==> a[1] < b[1] || (a[1] == b[1] && LexLess(a2, b2));
  }

  /**
   * When both versions parse, "newer" is exactly the lexicographic order on
   * (major, minor, patch, build number), a missing build number counting as 0.
   */
  lemma NewerIsKeyOrder(current: string, remote: string, currentTag: string, remoteTag: string)
    requires Parse(current).Some? && Parse(remote).Some?
    ensures IsNewerVersion(current, remote, currentTag, remoteTag) <==>
      LexLess(Key(Parse(current).value, BuildOrZero(currentTag)), Key(Parse(remote).value, BuildOrZero(remoteTag)))
  {
    var c, r := Parse(current).value, Parse(remote).value;
    LexLessFour(Key(c, BuildOrZero(currentTag)), Key(r, BuildOrZero(remoteTag)));
    assert IsNewerVersion(current, remote, currentTag, remoteTag) ==
      if Less(c, r) then true else if Less(r, c) then false else BuildOrZero(remoteTag) > BuildOrZero(currentTag);
  }

  /** Nothing is newer than itself, whatever the text and tag. */
  lemma NewerIrreflexive(version: string, tag: string)
    ensures !IsNewerVersion(version, version, tag, tag)
  {
    match Parse(version)
    case None =>
    case Some(v) =>
      LessTrichotomy(v, v);
  }

  /** When both versions parse, "newer" is asymmetric. */
  lemma NewerAsymmetric(current: string, remote: string, currentTag: string, remoteTag: string)
    requires Parse(current).Some? && Parse(remote).Some?
    requires IsNewerVersion(current, remote, currentTag, remoteTag)
    ensures !IsNewerVersion(remote, current, remoteTag, currentTag)
  {
    LessTrichotomy(Parse(current).value, Parse(remote).value);
  }

  /**
   * When either version does not parse, "newer" is plain inequality of the
   * version texts, whatever the tags: symmetric, and blind to build numbers.
   */
  lemma FallbackIsInequality(current: string, remote: string, currentTag: string, remoteTag: string)
    requires Parse(current).None? || Parse(remote).None?
    ensures IsNewerVersion(current, remote, currentTag, remoteTag) <==> remote != current
    ensures IsNewerVersion(current, remote, currentTag, remoteTag) == IsNewerVersion(remote, current, remoteTag, currentTag)
  {
  }

  /** `nightly` and `beta` are not versions: each counts as newer than the other. */
  lemma FallbackExample(a: string, b: string)
    requires a == "nightly" && b == "beta"
    ensures IsNewerVersion(a, b, "v" + a, "v" + b)
    ensures IsNewerVersion(b, a, "v" + b, "v" + a)
  {
    SplitNone(a, '.');
    SplitNone(b, '.');
  }

  /** Stripping the leading `v` of a text that does not itself start with `v`. */
  lemma TrimOneV(f: string)
    requires f != [] && f[0] != 'v'
    ensures TrimStartMatches("v" + f, "v") == f
  {
    assert ("v" + f)[1..] == f;
    DiffersAt(f, "v", 0);
  }

  /** Two separator-free pieces joined by the separator split back into those two pieces. */
  lemma SplitTwo(a: string, b: string, sep: char)
    requires sep !in a && sep !in b
    ensures SplitOn(a + [sep] + b, sep) == [a, b]
  {
    assert Join([a, b], sep) == a + [sep] + b;
    SplitOnJoin([a, b], sep);
  }

  /** A text without the separator splits into itself. */
  lemma SplitNone(a: string, sep: char)
    requires sep !in a
    ensures SplitOn(a, sep) == [a]
  {
  }

  /** The build part `build{n}` holds no `-` and carries the value `n` when it fits a `u32`. */
  lemma BuildPartValue(n: nat)
    ensures var b := "build" + ToDecimal(n);
      '-' !in b && IsBuildPart(b) && BuildValue(b) == if n < U32_LIMIT then Some(n) else None
  {
    var d := ToDecimal(n);
    var b := "build" + d;
    NoOtherCharInDigits(d, '-');
    forall i | 0 <= i < |b|
      ensures b[i] != '-'
    {
      if i >= 5 {
        assert b[i] == d[i - 5];
      }
    }
    assert b[..5] == "build" && b[5..] == d;
    assert !StartsWith(d, "build") by {
      assert IsDigit(d[0]);
    }
    assert TrimStartMatches(b, "build") == d;
    ParseUnsignedToDecimal(n, U32_LIMIT);
  }

  /** The two pieces of a tag `v{version}-build{n}`. */
  lemma TagShape(f: string, d: string)
    ensures "v" + f + "-build" + d == "v" + (f + ['-'] + ("build" + d)) == ("v" + f) + ['-'] + ("build" + d)
  {
    assert "-build" == ['-'] + "build";
  }

  /** A tag `v{version}-build{n}` gives back the version text. */
  lemma TagVersion(v: Version, n: nat)
    ensures ParseVersion("v" + Format(v) + "-build" + ToDecimal(n)) == Some(Format(v))
  {
    var f := Format(v);
    var b := "build" + ToDecimal(n);
    var t := f + ['-'] + b;
    FormatShape(v);
    BuildPartValue(n);
    TagShape(Format(v), ToDecimal(n));
    assert t[0] == f[0];
    TrimOneV(t);
    SplitTwo(f, b, '-');
    assert ParseVersion("v" + t) == Some(SplitOn(t, '-')[0]);
  }

  /** A tag `v{version}-build{n}` gives back the build number, when it fits a `u32`. */
  lemma TagBuild(v: Version, n: nat)
    ensures ParseBuildNumber("v" + Format(v) + "-build" + ToDecimal(n)) == if n < U32_LIMIT then Some(n) else None
  {
    var f := Format(v);
    var b := "build" + ToDecimal(n);
    var head := "v" + f;
    var tag := "v" + f + "-build" + ToDecimal(n);
    FormatShape(v);
    BuildPartValue(n);
    TagShape(f, ToDecimal(n));
    assert tag == head + ['-'] + b;
    assert '-' !in head;
    SplitTwo(head, b, '-');
    assert SplitOn(tag, '-') == [head, b];
    assert !IsBuildPart(head) by {
      assert |head| < 5 || head[..5][0] != "build"[0];
    }
    assert [head, b][1..] == [b];
    assert BuildNumberIn([head, b]) == BuildNumberIn([b]) == BuildValue(b);
  }

  /** A tag `v{version}` without a build part gives back the version text and no build number. */
  lemma PlainTagRoundTrip(v: Version)
    ensures ParseVersion("v" + Format(v)) == Some(Format(v))
    ensures ParseBuildNumber("v" + Format(v)) == None
  {
    var f := Format(v);
    var tag := "v" + f;
    FormatShape(v);
    TrimOneV(f);
    SplitNone(f, '-');
    assert '-' !in tag;
    SplitNone(tag, '-');
    assert !IsBuildPart(tag) by {
      assert |tag| < 5 || tag[..5][0] != "build"[0];
    }
    var none: seq<string> := [];
    assert [tag][1..] == none;
    assert BuildNumberIn([tag]) == BuildNumberIn(none) == None;
  }

  /**
   * Once a part starts with `build`, the parts after it never matter: the
   * build number is that part's value, even when it has none.
   */
  lemma LaterBuildPartsIgnored(parts: seq<string>, i: nat)
    requires i < |parts| && forall k :: 0 <= k < |parts| ==> '-' !in parts[k]
    requires forall j :: 0 <= j < i ==> !IsBuildPart(parts[j])
    requires IsBuildPart(parts[i])
    ensures ParseBuildNumber(Join(parts, '-')) == BuildValue(parts[i])
  {
    SplitOnJoin(parts, '-');
    BuildNumberSearch(parts);
  }

  /** `v1-buildx-build7` has no build number: `buildx` decides, and `build7` is never looked at. */
  lemma FirstBuildPartDecides(tag: string)
    requires tag == "v1-buildx-build7"
    ensures ParseBuildNumber(tag) == None
  {
    var parts := ["v1", "buildx", "build7"];
    assert Join(parts[1..], '-') == "buildx" + "-" + "build7" by {
      assert parts[1..][1..] == ["build7"];
    }
    assert Join(parts, '-') == tag;
    DiffersAt(parts[0], "build", 0);
    assert TrimStartMatches(parts[1], "build") == "x" by {
      assert parts[1][..5] == "build" && parts[1][5..] == "x";
    }
    LaterBuildPartsIgnored(parts, 1);
  }

  /** A tag `v{version}-build{n}`. */
  function BuildTag(v: Version, n: nat): string
  {
    "v" + Format(v) + "-build" + ToDecimal(n)
  }

  /** Between two builds of one version, the higher build number is the newer. */
  lemma SameVersionByBuild(v: Version, m: nat, n: nat)
    requires InRange(v) && m < U32_LIMIT && n < U32_LIMIT
    ensures IsNewerVersion(Format(v), Format(v), BuildTag(v, m), BuildTag(v, n)) <==> n > m
  {
    ParseFormat(v);
    LessTrichotomy(v, v);
    TagBuild(v, m);
    TagBuild(v, n);
  }

  /** `parse_version("v0.2.4")` is `0.2.4`. */
  lemma ParseVersionPlainExample(tag: string)
    requires tag == "v0.2.4"
    ensures ParseVersion(tag) == Some("0.2.4")
  {
    var v := Version(0, 2, 4);
    assert Format(v) == "0.2.4";
    assert tag == "v" + Format(v);
    PlainTagRoundTrip(v);
  }

  /** `parse_version("v0.2.4-build5")` is `0.2.4`. */
  lemma ParseVersionBuildExample(tag: string)
    requires tag == "v0.2.4-build5"
    ensures ParseVersion(tag) == Some("0.2.4")
  {
    var v := Version(0, 2, 4);
    assert Format(v) == "0.2.4";
    assert tag == "v" + Format(v) + "-build" + ToDecimal(5);
    TagVersion(v, 5);
  }

  /** `parse_version("0.2.4")` is `0.2.4`: the `v` is optional. */
  lemma ParseVersionBareExample(tag: string)
    requires tag == "0.2.4"
    ensures ParseVersion(tag) == Some("0.2.4")
  {
    DiffersAt(tag, "v", 0);
    SplitNone(tag, '-');
  }

  /** `parse_build_number` of `v0.2.4-build5` is 5. */
  lemma ParseBuildNumberExample(tag: string)
    requires tag == "v0.2.4-build5"
    ensures ParseBuildNumber(tag) == Some(5)
  {
    var v := Version(0, 2, 4);
    assert Format(v) == "0.2.4";
    assert tag == "v" + Format(v) + "-build" + ToDecimal(5);
    TagBuild(v, 5);
  }

  /** `parse_build_number` of `v0.2.4-build123` is 123. */
  lemma ParseBuildNumberLargeExample(tag: string)
    requires tag == "v0.2.4-build123"
    ensures ParseBuildNumber(tag) == Some(123)
  {
    var v := Version(0, 2, 4);
    var f, d := Format(v), ToDecimal(123);
    assert f == "0.2.4";
    assert d == ToDecimal(12) + "3" == "123";
    assert tag == "v" + f + "-build" + d;
    TagBuild(v, 123);
  }

  /** `parse_build_number("v0.2.4")` is `None`. */
  lemma ParseBuildNumberPlainExample(tag: string)
    requires tag == "v0.2.4"
    ensures ParseBuildNumber(tag) == None
  {
    var v := Version(0, 2, 4);
    assert Format(v) == "0.2.4";
    assert tag == "v" + Format(v);
    PlainTagRoundTrip(v);
  }

  /** Versions that differ decide by precedence: 0.2.4 is newer than 0.2.3, 0.2.4 is not newer than 0.2.5. */
  lemma IsNewerByVersionExample(older: string, same: string, later: string)
    requires older == "0.2.3" && same == "0.2.4" && later == "0.2.5"
    ensures IsNewerVersion(older, same, "v" + older, "v" + same)
    ensures !IsNewerVersion(later, same, "v" + later, "v" + same)
  {
    var v3, v4, v5 := Version(0, 2, 3), Version(0, 2, 4), Version(0, 2, 5);
    assert Format(v3) == older && Format(v4) == same && Format(v5) == later;
    ParseFormat(v3);
    ParseFormat(v4);
    ParseFormat(v5);
  }

  /** On 0.2.4, build 5 is newer than build 4, and not the other way round. */
  lemma IsNewerByBuildExample()
    ensures IsNewerVersion(Format(Version(0, 2, 4)), Format(Version(0, 2, 4)), BuildTag(Version(0, 2, 4), 4), BuildTag(Version(0, 2, 4), 5))
    ensures !IsNewerVersion(Format(Version(0, 2, 4)), Format(Version(0, 2, 4)), BuildTag(Version(0, 2, 4), 5), BuildTag(Version(0, 2, 4), 4))
  {
    SameVersionByBuild(Version(0, 2, 4), 4, 5);
    SameVersionByBuild(Version(0, 2, 4), 5, 4);
  }

  /** The platform the app was built for (`cfg(target_os)`). */
  datatype Platform = Linux | Windows | Android | OtherPlatform

  /** `get_asset_pattern`: the file-name suffix of the platform's installer. */
  function AssetPattern(p: Platform): (r: string)
    ensures r == "" <==> p == OtherPlatform
  {
    match p
    case Linux => ".AppImage"
    case Windows => "-setup.exe"
    case Android => "-debug.apk"
    case OtherPlatform => ""
  }

  datatype Asset = Asset(name: string, browserDownloadUrl: string)

  datatype Release = Release(tagName: string, name: string, body: string, htmlUrl: string, publishedAt: string, assets: seq<Asset>)

  /** `assets.iter().find(|a| a.name.ends_with(pattern))`: the index of the first match. */
  function FirstMatch(assets: seq<Asset>, pattern: string): (r: Option<nat>)
    ensures r.Some? ==> r.value < |assets| && EndsWith(assets[r.value].name, pattern)
    ensures r.Some? ==> forall j :: 0 <= j < r.value ==> !EndsWith(assets[j].name, pattern)
    ensures r.None? <==> forall j :: 0 <= j < |assets| ==> !EndsWith(assets[j].name, pattern)
  {
    if assets == [] then None
    else if EndsWith(assets[0].name, pattern) then Some(0)
    else
      var r := FirstMatch(assets[1..], pattern);
      assert forall j :: 1 <= j < |assets| ==> assets[j] == assets[1..][j - 1];
      if r.Some? then Some(r.value + 1) else None
  }

  /**
   * The download URL: the first asset whose name ends with the pattern, or
   * the release page when none does.
   */
  function DownloadUrl(release: Release, pattern: string): (r: string)
    ensures (forall j :: 0 <= j < |release.assets| ==> !EndsWith(release.assets[j].name, pattern)) ==> r == release.htmlUrl
    ensures forall i :: (0 <= i < |release.assets| && EndsWith(release.assets[i].name, pattern)
                         && forall j :: 0 <= j < i ==> !EndsWith(release.assets[j].name, pattern))
                        ==> r == release.assets[i].browserDownloadUrl
  {
    match FirstMatch(release.assets, pattern)
    case Some(i) => release.assets[i].browserDownloadUrl
    case None => release.htmlUrl
  }

  /** Where no installer pattern is known, the first asset is offered whenever there is one. */
  lemma OtherPlatformTakesFirstAsset(release: Release)
    ensures release.assets != [] ==> DownloadUrl(release, AssetPattern(OtherPlatform)) == release.assets[0].browserDownloadUrl
    ensures release.assets == [] ==> DownloadUrl(release, AssetPattern(OtherPlatform)) == release.htmlUrl
  {
    if release.assets != [] {
      assert EndsWith(release.assets[0].name, "");
    }
  }

  /** What the releases endpoint answered. */
  datatype FetchOutcome =
    | ClientError(description: string)
    | RequestError(description: string)
    | StatusError(status: string)
    | BodyError(description: string)
    | Fetched(releases: seq<Release>)

  datatype UpdateInfo = UpdateInfo(version: string, tag: string, name: string, body: string,
                                   downloadUrl: string, releaseUrl: string, publishedAt: string)

  /** The version the running app reports, `0.0.0` when its configuration has none. */
  function CurrentVersion(configVersion: Option<string>): string
  {
    configVersion.UnwrapOr("0.0.0")
  }

  /**
   * `check_for_updates` once the releases are fetched: the first release
   * listed is the latest; no update when it is not newer than the running
   * version (compared against the tag `v{version}`), otherwise the update.
   */
  function CheckForUpdates(configVersion: Option<string>, fetched: FetchOutcome, platform: Platform): (r: Result<Option<UpdateInfo>>)
    ensures r.Ok? <==> fetched.Fetched? && fetched.releases != []
    ensures fetched == Fetched([]) ==> r == Err("No releases found")
    ensures r.Ok? ==>
      var current := CurrentVersion(configVersion);
      var latest := fetched.releases[0];
      (r.value.Some? <==> IsNewerVersion(current, ParseVersion(latest.tagName).value, "v" + current, latest.tagName))
    ensures r.Ok? && r.value.Some? ==>
      var latest := fetched.releases[0];
      var info := r.value.value;
      && info.version == ParseVersion(latest.tagName).value && info.tag == latest.tagName
      && info.releaseUrl == latest.htmlUrl
      && info.downloadUrl == DownloadUrl(latest, AssetPattern(platform))
  {
    match fetched
    case ClientError(e) => Err("Failed to create HTTP client: " + e)
    case RequestError(e) => Err("Failed to fetch release info: " + e)
    case StatusError(status) => Err("GitHub API returned status: " + status)
    case BodyError(e) => Err("Failed to parse release info: " + e)
    case Fetched(releases) =>
      if releases == [] then Err("No releases found")
      else
        var current := CurrentVersion(configVersion);
        var latest := releases[0];
        var remote := ParseVersion(latest.tagName).value;
        if !IsNewerVersion(current, remote, "v" + current, latest.tagName) then Ok(None)
        else
          Ok(Some(UpdateInfo(remote, latest.tagName, latest.name, latest.body,
                             DownloadUrl(latest, AssetPattern(platform)), latest.htmlUrl, latest.publishedAt)))
  }

  /**
   * The running version's own tag carries no build number, so any release
   * with the same version and a build number is reported as an update.
   */
  lemma SameVersionWithBuildIsOffered(v: Version, n: nat, release: Release, platform: Platform)
    requires InRange(v) && 0 < n < U32_LIMIT
    requires release.tagName == "v" + Format(v) + "-build" + ToDecimal(n)
    ensures CheckForUpdates(Some(Format(v)), Fetched([release]), platform).value.Some?
  {
    var f := Format(v);
    TagVersion(v, n);
    BuildOfSameVersionIsNewer(v, n);
    assert CurrentVersion(Some(f)) == f;
  }

  /** On the same version, the running tag `v{version}` loses to `v{version}-build{n}` for n > 0. */
  lemma BuildOfSameVersionIsNewer(v: Version, n: nat)
    requires InRange(v) && 0 < n < U32_LIMIT
    ensures IsNewerVersion(Format(v), Format(v), "v" + Format(v), "v" + Format(v) + "-build" + ToDecimal(n))
  {
    var f := Format(v);
    var tag := "v" + f + "-build" + ToDecimal(n);
    TagBuild(v, n);
    PlainTagRoundTrip(v);
    ParseFormat(v);
    LessTrichotomy(v, v);
    assert BuildOrZero(tag) == n && BuildOrZero("v" + f) == 0;
  }
}
