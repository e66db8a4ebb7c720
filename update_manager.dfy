/**
 * The decision logic of UpdateManager.java: comparing dotted version strings, reading the
 * current version from the lines of the VERSION file, deciding whether an update is available,
 * choosing the release asset for the running operating system and composing the argument
 * vector that hands the unpacked update over to the separate updater program.
 * The HTTP request is an input here: a fetch either failed or produced a release.
 */
module UpdateManager {
  import opened Wrappers
  import opened JavaStrings

  /** The sentinel `getVersion` returns when no version is recorded. */
  const VersionUnknown: string := "unknown"

  function Max(a: nat, b: nat): nat {
    if a < b then b else a
  }

  // ---------------------------------------------------------------- version components

  predicate IsDigit(c: char) {
    '0' <= c <= '9'
  }

  /** A token `\d+` matches: one or more ASCII digits. */
  predicate IsDigits(s: string) {
    s != [] && forall k :: 0 <= k < |s| ==> IsDigit(s[k])
  }

  function DigitsValue(s: string): nat
    requires forall k :: 0 <= k < |s| ==> IsDigit(s[k])
    decreases |s|
  {
    if s == [] then 0
    else
      assert IsDigit(s[|s| - 1]);
      DigitsValue(s[..|s| - 1]) * 10 + (s[|s| - 1] as int - '0' as int)
  }

  /** `Integer.parseInt` on a version component, restricted to plain digit strings. */
  function ParseComponent(token: string): Option<nat> {
    if IsDigits(token) then Some(DigitsValue(token)) else None
  }

  datatype VersionError = NotANumber(token: string)

  /** `s.startsWith("v")` */
  predicate HasV(s: string) {
    s != [] && s[0] == 'v'
  }

  /** One leading `v` removed, as both arguments of `isVersionNewer` are treated. */
  function StripV(s: string): string {
    if HasV(s) then s[1..] else s
  }

  /** The components `isVersionNewer` compares: the string without its `v`, split on dots. */
  function Components(version: string): seq<string> {
    Split(StripV(version), '.')
  }

  /** The value compared at index `i`: a missing component counts as 0. */
  function ComponentAt(parts: seq<string>, i: nat): Result<nat, VersionError> {
    if i < |parts| then
      match ParseComponent(parts[i])
      case Some(v) => Success(v)
      case None => Failure(NotANumber(parts[i]))
    else Success(0)
  }

  /**
   * The comparison from index `i` on. At each index the latest version's component is parsed
   * before the current one's; the first index where they differ decides, and a component that
   * is not a number is an error only if the comparison reaches it.
   */
  function CompareFrom(latest: seq<string>, current: seq<string>, i: nat): Result<bool, VersionError>
    decreases Max(|latest|, |current|) - i
  {
    if i >= Max(|latest|, |current|) then Success(false)
    else
      match ComponentAt(latest, i)
      case Failure(e) => Failure(e)
      case Success(l) =>
        match ComponentAt(current, i)
        case Failure(e) => Failure(e)
        case Success(c) =>
          if l > c then Success(true)
          else if l < c then Success(false)
          else CompareFrom(latest, current, i + 1)
  }

  /** What `isVersionNewer(latestVersion, currentVersion)` returns or throws. */
  function VersionNewer(latestVersion: string, currentVersion: string): Result<bool, VersionError> {
    CompareFrom(Components(latestVersion), Components(currentVersion), 0)
  }

  /** `isVersionNewer`: the index loop with its early returns. */
  method IsVersionNewer(latestVersion: string, currentVersion: string) returns (r: Result<bool, VersionError>)
    ensures r == VersionNewer(latestVersion, currentVersion)
  {
    var latest := if HasV(latestVersion) then latestVersion[1..] else latestVersion;
    var current := if HasV(currentVersion) then currentVersion[1..] else currentVersion;
    var latestParts := Split(latest, '.');
    var currentParts := Split(current, '.');
    assert latestParts == Components(latestVersion) && currentParts == Components(currentVersion);
    var length := Max(|latestParts|, |currentParts|);
    var i := 0;
    while i < length
      invariant 0 <= i <= length
      invariant CompareFrom(latestParts, currentParts, i) == VersionNewer(latestVersion, currentVersion)
    {
      var latestPart := ComponentAt(latestParts, i);
      if latestPart.Failure? {
        return Failure(latestPart.error);
      }
      var currentPart := ComponentAt(currentParts, i);
      if currentPart.Failure? {
        return Failure(currentPart.error);
      }
      if latestPart.value > currentPart.value {
        return Success(true);
      } else if latestPart.value < currentPart.value {
        return Success(false);
      }
      i := i + 1;
    }
    return Success(false);
  }

  // ---------------------------------------------------------------- the order on numeric versions

  predicate AllNumeric(parts: seq<string>) {
    forall k :: 0 <= k < |parts| ==> IsDigits(parts[k])
  }

  function Values(parts: seq<string>): (vs: seq<nat>)
    requires AllNumeric(parts)
    ensures |vs| == |parts|
    ensures forall k :: 0 <= k < |parts| ==> ParseComponent(parts[k]) == Some(vs[k])
  {
    seq(|parts|, k requires 0 <= k < |parts| => DigitsValue(parts[k]))
  }

  /** Component `i`, with missing trailing components read as 0. */
  function Padded(vs: seq<nat>, i: nat): nat {
    if i < |vs| then vs[i] else 0
  }

  /** `a` is newer than `b`: at the first index where the zero-padded sequences differ, `a` is larger. */
  predicate Newer(a: seq<nat>, b: seq<nat>) {
    exists k :: 0 <= k < Max(|a|, |b|) && (forall j :: 0 <= j < k ==> Padded(a, j) == Padded(b, j)) && Padded(a, k) > Padded(b, k)
  }

  lemma {:induction false} CompareFromNumeric(latest: seq<string>, current: seq<string>, i: nat)
    requires AllNumeric(latest) && AllNumeric(current)
    requires forall j :: 0 <= j < i ==> Padded(Values(latest), j) == Padded(Values(current), j)
    ensures CompareFrom(latest, current, i) == Success(Newer(Values(latest), Values(current)))
    decreases Max(|latest|, |current|) - i
  {
    var a, b := Values(latest), Values(current);
    if i >= Max(|latest|, |current|) {
      assert forall k :: 0 <= k < Max(|a|, |b|) ==> Padded(a, k) == Padded(b, k);
    } else {
      assert ComponentAt(latest, i) == Success(Padded(a, i));
      assert ComponentAt(current, i) == Success(Padded(b, i));
      if Padded(a, i) > Padded(b, i) {
        assert Newer(a, b);
      } else if Padded(a, i) < Padded(b, i) {
        forall k | 0 <= k < Max(|a|, |b|) && (forall j :: 0 <= j < k ==> Padded(a, j) == Padded(b, j))
          ensures Padded(a, k) <= Padded(b, k)
        {
        }
      } else {
        CompareFromNumeric(latest, current, i + 1);
      }
    }
  }

  /**
   * On numeric components the comparison is the order `Newer` on their values: the first
   * index where the zero-padded components differ decides.
   */
  lemma {:induction false} VersionNewerNumeric(latestVersion: string, currentVersion: string)
    requires AllNumeric(Components(latestVersion)) && AllNumeric(Components(currentVersion))
    ensures VersionNewer(latestVersion, currentVersion)
         == Success(Newer(Values(Components(latestVersion)), Values(Components(currentVersion))))
  {
    CompareFromNumeric(Components(latestVersion), Components(currentVersion), 0);
  }

  lemma {:induction false} CompareFromSelf(parts: seq<string>, i: nat)
    ensures CompareFrom(parts, parts, i) != Success(true)
    decreases Max(|parts|, |parts|) - i
  {
    if i < |parts| && ComponentAt(parts, i).Success? {
      CompareFromSelf(parts, i + 1);
    }
  }

  /** A version is never newer than itself. */
  lemma {:induction false} NeverNewerThanItself(version: string)
    ensures VersionNewer(version, version) != Success(true)
  {
    CompareFromSelf(Components(version), 0);
  }

  lemma {:induction false} CompareFromAsymmetric(a: seq<string>, b: seq<string>, i: nat)
    ensures !(CompareFrom(a, b, i) == Success(true) && CompareFrom(b, a, i) == Success(true))
    decreases Max(|a|, |b|) - i
  {
    if i < Max(|a|, |b|) && ComponentAt(a, i).Success? && ComponentAt(b, i).Success?
       && ComponentAt(a, i).value == ComponentAt(b, i).value {
      CompareFromAsymmetric(a, b, i + 1);
    }
  }

  /** The first differing component decides, so two versions are never newer than each other. */
  lemma {:induction false} NewerIsAsymmetric(a: string, b: string)
    ensures !(VersionNewer(a, b) == Success(true) && VersionNewer(b, a) == Success(true))
  {
    CompareFromAsymmetric(Components(a), Components(b), 0);
  }

  /** The dotted components of `v` followed by the given non-empty digit runs. */
  lemma {:induction false} ComponentsOf(version: string, parts: seq<string>)
    requires parts != [] && forall p :: p in parts ==> p != "" && '.' !in p
    requires StripV(version) == Join('.', parts)
    ensures Components(version) == parts
  {
    SplitJoin('.', parts);
  }

  /** Where all earlier components agree, the first larger one decides. */
  lemma {:induction false} CompareFromExample(latest: seq<string>, current: seq<string>, i: nat, l: nat, c: nat)
    requires i < |latest| && i < |current| && l > c
    requires forall j :: 0 <= j < i ==> ComponentAt(latest, j).Success? && ComponentAt(latest, j) == ComponentAt(current, j)
    requires ComponentAt(latest, i) == Success(l) && ComponentAt(current, i) == Success(c)
    ensures CompareFrom(latest, current, 0) == Success(true)
  {
    var k := i;
    while k > 0
      invariant 0 <= k <= i
      invariant CompareFrom(latest, current, k) == Success(true)
    {
      k := k - 1;
    }
  }

  /** One leading `v` on either side is ignored. */
  lemma {:induction false} LeadingVIgnored(latest: string, current: string)
    requires !HasV(latest) && !HasV(current)
    ensures VersionNewer("v" + latest, current) == VersionNewer(latest, current)
    ensures VersionNewer(latest, "v" + current) == VersionNewer(latest, current)
  {
    assert StripV("v" + latest) == latest;
    assert StripV("v" + current) == current;
  }

  /** Where the first components agree, a larger middle component decides. */
  lemma {:induction false} VersionExampleMinor(latest: string, current: string)
    requires latest == "1.2.0" && current == "1.1.9"
    ensures VersionNewer(latest, current) == Success(true)
  {
    MinorComponents(latest, current);
    CompareMinor(Components(latest), Components(current));
  }

  lemma {:induction false} MinorComponents(latest: string, current: string)
    requires latest == "1.2.0" && current == "1.1.9"
    ensures Components(latest) == ["1", "2", "0"] && Components(current) == ["1", "1", "9"]
  {
    ComponentsOf(latest, ["1", "2", "0"]);
    ComponentsOf(current, ["1", "1", "9"]);
  }

  lemma {:induction false} CompareMinor(l: seq<string>, c: seq<string>)
    requires l == ["1", "2", "0"] && c == ["1", "1", "9"]
    ensures CompareFrom(l, c, 0) == Success(true)
  {
    assert ComponentAt(l, 0) == ComponentAt(c, 0) == Success(1);
    assert ComponentAt(l, 1) == Success(2) && ComponentAt(c, 1) == Success(1);
  }

  /** A larger first component decides, whatever follows. */
  lemma {:induction false} VersionExampleMajor(latest: string, current: string)
    requires latest == "2" && current == "1.99.99"
    ensures VersionNewer(latest, current) == Success(true)
  {
    MajorComponents(latest, current);
    CompareMajor(Components(latest), Components(current));
  }

  lemma {:induction false} MajorComponents(latest: string, current: string)
    requires latest == "2" && current == "1.99.99"
    ensures Components(latest) == ["2"] && Components(current) == ["1", "99", "99"]
  {
    ComponentsOf(latest, ["2"]);
    ComponentsOf(current, ["1", "99", "99"]);
  }

  lemma {:induction false} CompareMajor(l: seq<string>, c: seq<string>)
    requires l == ["2"] && c == ["1", "99", "99"]
    ensures CompareFrom(l, c, 0) == Success(true)
  {
    CompareFromExample(l, c, 0, 2, 1);
  }

  /** Missing trailing components count as zero, in either position. */
  lemma {:induction false} VersionExampleTrailingZero(short: string, long: string)
    requires short == "1.0" && long == "1.0.0"
    ensures VersionNewer(short, long) == Success(false)
    ensures VersionNewer(long, short) == Success(false)
  {
    TrailingZeroComponents(short, long);
    CompareTrailingZero(Components(short), Components(long));
  }

  lemma {:induction false} TrailingZeroComponents(short: string, long: string)
    requires short == "1.0" && long == "1.0.0"
    ensures Components(short) == ["1", "0"] && Components(long) == ["1", "0", "0"]
  {
    ComponentsOf(short, ["1", "0"]);
    ComponentsOf(long, ["1", "0", "0"]);
  }

  lemma {:induction false} CompareTrailingZero(s: seq<string>, l: seq<string>)
    requires s == ["1", "0"] && l == ["1", "0", "0"]
    ensures CompareFrom(s, l, 0) == Success(false) && CompareFrom(l, s, 0) == Success(false)
  {
    assert ComponentAt(s, 2) == ComponentAt(l, 2) == Success(0);
    assert CompareFrom(s, l, 2) == Success(false) && CompareFrom(l, s, 2) == Success(false);
    assert ComponentAt(s, 1) == ComponentAt(l, 1) == Success(0);
    assert CompareFrom(s, l, 1) == Success(false) && CompareFrom(l, s, 1) == Success(false);
    assert ComponentAt(s, 0) == ComponentAt(l, 0) == Success(1);
  }

  // ---------------------------------------------------------------- the VERSION file

  /** One or more runs of digits separated by single dots: `(\d+\.)*\d+`. */
  predicate IsDigitRuns(body: string) {
    && body != []
    && IsDigit(body[0]) && IsDigit(body[|body| - 1])
    && (forall k :: 0 <= k < |body| ==> IsDigit(body[k]) || body[k] == '.')
    && (forall k :: 0 <= k < |body| - 1 ==> DigitAfterDot(body, k))
  }

  /** A dot at `k` is followed by a digit. */
  predicate DigitAfterDot(body: string, k: nat)
    requires k + 1 < |body|
  {
    body[k] == '.' ==> IsDigit(body[k + 1])
  }

  /** Two or more runs of digits separated by single dots: `(\d+\.)+\d+`. */
  predicate IsDottedNumber(body: string) {
    IsDigitRuns(body) && '.' in body
  }

  /** The dot-separated pieces of digit runs are the runs themselves. */
  lemma {:induction false} DigitRunsPieces(body: string)
    requires IsDigitRuns(body)
    ensures AllNumeric(Pieces(body, '.'))
    ensures '.' in body ==> |Pieces(body, '.')| >= 2
    decreases |body|
  {
    var ps := Pieces(body, '.');
    if '.' !in body {
      assert ps == [body];
      assert IsDigits(body);
    } else {
      var i := IndexOf(body, '.');
      var head, rest := body[..i], body[i + 1..];
      assert ps == [head] + Pieces(rest, '.');
      assert i > 0 && i < |body| - 1;
      assert DigitAfterDot(body, i);
      assert IsDigits(head) by {
        forall k | 0 <= k < |head| ensures IsDigit(head[k]) {
          assert head[k] == body[k] && body[k] != '.';
        }
      }
      assert rest[0] == body[i + 1] && rest[|rest| - 1] == body[|body| - 1];
      assert IsDigitRuns(rest) by {
        forall k | 0 <= k < |rest| ensures IsDigit(rest[k]) || rest[k] == '.' {
          assert rest[k] == body[i + 1 + k];
        }
        forall k | 0 <= k < |rest| - 1 ensures DigitAfterDot(rest, k) {
          assert DigitAfterDot(body, i + 1 + k);
          assert rest[k] == body[i + 1 + k] && rest[k + 1] == body[i + 2 + k];
        }
      }
      DigitRunsPieces(rest);
    }
  }

  /** A line the pattern `^v(\d+\.)+\d+$` matches in full. */
  predicate IsVersionLine(s: string) {
    HasV(s) && IsDottedNumber(s[1..])
  }

  /** `getVersion` keeps a line when, once trimmed, it is a version line. */
  predicate MatchesVersion(line: string) {
    IsVersionLine(Trim(line))
  }

  /** The first index holding `true`: what `filter(...).findFirst()` selects. */
  function FirstTrue(flags: seq<bool>): (k: Option<nat>)
    ensures k.None? <==> forall i :: 0 <= i < |flags| ==> !flags[i]
    ensures k.Some? ==> k.value < |flags| && flags[k.value]
    ensures k.Some? ==> forall j :: 0 <= j < k.value ==> !flags[j]
  {
    if flags == [] then None
    else if flags[0] then Some(0)
    else
      var k := FirstTrue(flags[1..]);
      assert forall i :: 1 <= i < |flags| ==> flags[i] == flags[1..][i - 1];
      if k.None? then None else Some(k.value + 1)
  }

  lemma {:induction false} FirstTrueAt(flags: seq<bool>, k: nat)
    requires k < |flags| && flags[k] && forall j :: 0 <= j < k ==> !flags[j]
    ensures FirstTrue(flags) == Some(k)
  {
  }

  /** Which lines `getVersion` keeps. */
  function Matching(lines: seq<string>): (m: seq<bool>)
    ensures |m| == |lines| && forall i :: 0 <= i < |lines| ==> m[i] == MatchesVersion(lines[i])
  {
    seq(|lines|, i requires 0 <= i < |lines| => MatchesVersion(lines[i]))
  }

  /**
   * `getVersion`: the VERSION file is absent (`None`) or holds the given lines. The result is
   * the sentinel or a `v`-prefixed version of at least two numeric components.
   */
  function GetVersion(versionFile: Option<seq<string>>): (v: string)
    ensures v == VersionUnknown || IsVersionLine(v)
    ensures versionFile.None? ==> v == VersionUnknown
  {
    match versionFile
    case None => VersionUnknown
    case Some(lines) =>
      match FirstTrue(Matching(lines))
      case None => VersionUnknown
      case Some(k) => Trim(lines[k])
  }

  /** The version is the first line that, once trimmed, is a version line. */
  lemma {:induction false} GetVersionFirstMatch(lines: seq<string>, k: nat)
    requires k < |lines| && MatchesVersion(lines[k])
    requires forall j :: 0 <= j < k ==> !MatchesVersion(lines[j])
    ensures GetVersion(Some(lines)) == Trim(lines[k])
  {
    var m := Matching(lines);
    assert m[k] && forall j :: 0 <= j < k ==> !m[j];
    FirstTrueAt(m, k);
  }

  /** A file without any version line records no version. */
  lemma {:induction false} GetVersionNoMatch(lines: seq<string>)
    requires forall j :: 0 <= j < |lines| ==> !MatchesVersion(lines[j])
    ensures GetVersion(Some(lines)) == VersionUnknown
  {
    var m := Matching(lines);
    assert forall j :: 0 <= j < |m| ==> !m[j];
  }

  /**
   * A recorded version is already trimmed and its components all parse, so comparing against
   * it can fail only because of the other side.
   */
  lemma {:induction false} VersionLineParses(v: string)
    requires IsVersionLine(v)
    ensures Trim(v) == v
    ensures AllNumeric(Components(v)) && |Components(v)| >= 2
  {
    var body := v[1..];
    assert v[|v| - 1] == body[|body| - 1];
    assert IsTrimmed(v);
    TrimOfTrimmed(v);
    DigitRunsPieces(body);
    var ps := Pieces(body, '.');
    assert ps[|ps| - 1] != "";
    assert StripV(v) == body;
    assert Components(v) == ps;
  }

  // ---------------------------------------------------------------- releases and the update decision

  datatype Asset = Asset(browserDownloadUrl: string)

  datatype Release = Release(tagName: string, assets: seq<Asset>)

  /** The outcome of `getLatestRelease`: the HTTP request and JSON decoding are not modelled. */
  datatype Fetch = Fetched(release: Release) | FetchFailed

  /** `isUpdateAvailable`, given the outcome of the fetch and the recorded version. */
  function IsUpdateAvailable(fetch: Fetch, localVersion: string): (r: Result<bool, VersionError>)
    ensures fetch.FetchFailed? ==> r == Success(false)
    ensures fetch.Fetched? && localVersion == VersionUnknown ==> r == Success(true)
  {
    match fetch
    case FetchFailed => Success(false)
    case Fetched(release) =>
      if localVersion == VersionUnknown then Success(true)
      else VersionNewer(Trim(release.tagName), Trim(localVersion))
  }

  /**
   * With a recorded version and a numeric tag, an update is available exactly when the tag's
   * components are `Newer` than the recorded ones; a release tagged with the recorded version
   * itself is not an update.
   */
  lemma {:induction false} UpdateAvailableForKnownVersion(release: Release, v: string)
    requires IsVersionLine(v)
    requires AllNumeric(Components(Trim(release.tagName)))
    ensures AllNumeric(Components(v))
    ensures IsUpdateAvailable(Fetched(release), v)
         == Success(Newer(Values(Components(Trim(release.tagName))), Values(Components(v))))
    ensures Trim(release.tagName) == v ==> IsUpdateAvailable(Fetched(release), v) == Success(false)
  {
    VersionLineParses(v);
    assert v != VersionUnknown;
    VersionNewerNumeric(Trim(release.tagName), v);
    if Trim(release.tagName) == v {
      NeverNewerThanItself(v);
    }
  }

  // ---------------------------------------------------------------- the asset for this platform

  datatype Platform = Windows | MacOS | Unix | OtherOs

  /** The tests on the lower-cased `os.name`, in the order the source makes them. */
  function PlatformOf(osName: string): Platform {
    var os := ToLower(osName);
    if Contains(os, "win") then Windows
    else if Contains(os, "mac") then MacOS
    else if Contains(os, "nix") || Contains(os, "nux") || Contains(os, "aix") then Unix
    else OtherOs
  }

  /** The fragment a download URL must contain to suit the platform. */
  function AssetFragment(p: Platform): string
    requires p != OtherOs
  {
    match p
    case Windows => "windows"
    case MacOS => "macos"
    case Unix => "ubuntu"
  }

  /** The URL of the first asset, in list order, whose URL contains `fragment`. */
  function FirstAssetWith(assets: seq<Asset>, fragment: string): (url: Option<string>)
    ensures url.None? <==> forall k :: 0 <= k < |assets| ==> !Contains(assets[k].browserDownloadUrl, fragment)
    ensures url.Some? ==>
      exists k :: 0 <= k < |assets| && url.value == assets[k].browserDownloadUrl && Contains(url.value, fragment)
                  && forall j :: 0 <= j < k ==> !Contains(assets[j].browserDownloadUrl, fragment)
  {
    if assets == [] then None
    else if Contains(assets[0].browserDownloadUrl, fragment) then Some(assets[0].browserDownloadUrl)
    else
      var url := FirstAssetWith(assets[1..], fragment);
      assert forall k :: 1 <= k < |assets| ==> assets[k] == assets[1..][k - 1];
      url
  }

  /** `getDownloadUrl`: nothing for a failed fetch or an unrecognised platform. */
  function DownloadUrl(fetch: Fetch, osName: string): (url: Option<string>)
    ensures fetch.FetchFailed? || PlatformOf(osName) == OtherOs ==> url.None?
    ensures url.Some? ==> Contains(url.value, AssetFragment(PlatformOf(osName)))
  {
    match fetch
    case FetchFailed => None
    case Fetched(release) =>
      var p := PlatformOf(osName);
      if p == OtherOs then None else FirstAssetWith(release.assets, AssetFragment(p))
  }

  /** On Linux, a release with a Windows and an Ubuntu asset yields the Ubuntu one. */
  lemma {:induction false} LinuxIsUnix(osName: string)
    requires osName == "Linux"
    ensures PlatformOf(osName) == Unix
  {
    var os := ToLower(osName);
    assert os == "li" + "nux";
    NotContainsMissingChar(os, "win", 'w');
    NotContainsMissingChar(os, "mac", 'm');
    ContainsSuffix("li", "nux");
  }

  lemma {:induction false} LinuxPicksUbuntuAsset(tag: string, windowsUrl: string, ubuntuUrl: string, osName: string)
    requires windowsUrl == "app-windows.zip" && ubuntuUrl == "app-ubuntu.tar"
    requires osName == "Linux"
    ensures DownloadUrl(Fetched(Release(tag, [Asset(windowsUrl), Asset(ubuntuUrl)])), osName) == Some(ubuntuUrl)
  {
    LinuxIsUnix(osName);
    UbuntuAssetFound(windowsUrl, ubuntuUrl, AssetFragment(Unix));
  }

  lemma {:induction false} UbuntuAssetFound(windowsUrl: string, ubuntuUrl: string, fragment: string)
    requires windowsUrl == "app-windows.zip" && ubuntuUrl == "app-ubuntu.tar" && fragment == "ubuntu"
    ensures FirstAssetWith([Asset(windowsUrl), Asset(ubuntuUrl)], fragment) == Some(ubuntuUrl)
  {
    NotContainsMissingChar(windowsUrl, fragment, 'b');
    assert ubuntuUrl == "app-" + (fragment + ".tar");
    ContainsPrefix(fragment, ".tar");
    ContainsExtendLeft("app-", fragment + ".tar", fragment);
    var assets := [Asset(windowsUrl), Asset(ubuntuUrl)];
    assert FirstAssetWith(assets[1..], fragment) == Some(ubuntuUrl);
  }

  datatype UpdatePrompt = NoUpdate(shownVersion: string) | OfferUpdate(url: string)

  /**
   * `tryUpdate` up to the user's answer: each of `getDownloadUrl` and `isUpdateAvailable`
   * fetches the release on its own, so the two fetch outcomes are separate inputs.
   */
  function TryUpdate(urlFetch: Fetch, checkFetch: Fetch, localVersion: string, osName: string): (r: Result<UpdatePrompt, VersionError>)
    ensures r.Success? && r.value.OfferUpdate? <==>
      IsUpdateAvailable(checkFetch, localVersion) == Success(true) && DownloadUrl(urlFetch, osName).Some?
    ensures r.Success? && r.value.OfferUpdate? ==> r.value.url == DownloadUrl(urlFetch, osName).value
    ensures r.Failure? <==> IsUpdateAvailable(checkFetch, localVersion).Failure?
  {
    var url := DownloadUrl(urlFetch, osName);
    match IsUpdateAvailable(checkFetch, localVersion)
    case Failure(e) => Failure(e)
    case Success(available) =>
      if !available || url.None? then Success(NoUpdate(localVersion)) else Success(OfferUpdate(url.value))
  }

  // ---------------------------------------------------------------- handing over to the updater

  /** `dir.resolve(name)` for a directory path without a trailing separator. */
  function Resolve(dir: string, name: string, sep: char): string {
    dir + [sep] + name
  }

  /**
   * What `launchUpdater` starts: `chmod +x` on the bundled Java on macOS and Unix, and the
   * updater command, which is absent for an unrecognised platform or a missing Updater.jar.
   */
  datatype UpdaterLaunch = UpdaterLaunch(chmodTarget: Option<string>, command: Option<seq<string>>)

  function LaunchUpdater(updateDir: string, osName: string, updaterJarExists: bool, installRoot: string, sep: char): UpdaterLaunch
  {
    var updaterJar := Resolve(updateDir, "Updater.jar", sep);
    match PlatformOf(osName)
    case OtherOs => UpdaterLaunch(None, None)
    case Windows =>
      var java := Resolve(Resolve(updateDir, "bin", sep), "java.exe", sep);
      UpdaterLaunch(None, if updaterJarExists then Some([java, "-jar", updaterJar, updateDir, installRoot]) else None)
    case _ =>
      var java := Resolve(Resolve(updateDir, "bin", sep), "java", sep);
      UpdaterLaunch(Some(java), if updaterJarExists then Some([java, "-jar", updaterJar, updateDir, installRoot]) else None)
  }

  /**
   * The updater is started exactly when the platform is recognised and Updater.jar exists. It
   * runs the Java bundled in the unpacked update on the bundled Updater.jar, and receives the
   * unpacked tree and the installation root as its two positional arguments.
   */
  lemma {:induction false} UpdaterCommandShape(updateDir: string, osName: string, updaterJarExists: bool, installRoot: string, sep: char)
    ensures var u := LaunchUpdater(updateDir, osName, updaterJarExists, installRoot, sep);
      && (u.command.Some? <==> PlatformOf(osName) != OtherOs && updaterJarExists)
      && (u.chmodTarget.Some? <==> PlatformOf(osName) == MacOS || PlatformOf(osName) == Unix)
      && (u.command.Some? ==>
            var argv := u.command.value;
            && |argv| == 5
            && argv[1] == "-jar" && argv[2] == updateDir + [sep] + "Updater.jar"
            && argv[3] == updateDir && argv[4] == installRoot
            && argv[0] == updateDir + [sep] + "bin" + [sep] + (if PlatformOf(osName) == Windows then "java.exe" else "java")
            && (u.chmodTarget.Some? ==> u.chmodTarget.value == argv[0]))
  {
  }
}
