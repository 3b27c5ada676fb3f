/** The selection logic of src/installer.py: which release asset is taken
    for the machine's architecture, the version shown, whether the download
    is unpacked, and which file of the working directory is the router. The
    HTTP requests, the file writes, the download progress and the console
    output are not modelled: what they return is a parameter. */
module Installer {
  import opened Wrappers
  import opened Seqs
  import opened Text

  /** One entry of a release's `assets` list. */
  datatype Asset = Asset(name: string, downloadUrl: string)

  /** The fields of the latest-release answer the installer reads. */
  datatype Release = Release(tagName: string, assets: seq<Asset>)

  /** A (lower-cased) asset name that looks like a Windows build. */
  predicate IsWindowsLike(n: string) {
    Contains(n, ".exe") || Contains(n, "windows") || Contains(n, "win")
  }

  /** A (lower-cased) asset name for the architecture: `"64"`, or anything
      else for 32 bits. */
  predicate ArchMatches(n: string, arch: string) {
    if arch == "64" then Contains(n, "x64") || Contains(n, "64") || Contains(n, "amd64") || Contains(n, "win64")
    else Contains(n, "x86") || Contains(n, "32") || Contains(n, "win32") || Contains(n, "i686")
  }

  function Suitable(arch: string): Asset -> bool {
    (a: Asset) => IsWindowsLike(Lower(a.name)) && ArchMatches(Lower(a.name), arch)
  }

  /** The asset loop of `install_from_github`: the first suitable asset in
      list order. */
  function SelectAsset(assets: seq<Asset>, arch: string): (r: Option<Asset>)
    ensures r.Some? ==> exists i :: 0 <= i < |assets| && assets[i] == r.value
                                    && (forall k :: 0 <= k < i ==> !Suitable(arch)(assets[k]))
    ensures r.Some? ==> IsWindowsLike(Lower(r.value.name)) && ArchMatches(Lower(r.value.name), arch)
    ensures r.None? <==> forall k :: 0 <= k < |assets| ==> !Suitable(arch)(assets[k])
  {
    match FirstIndex(assets, Suitable(arch))
    case None => None
    case Some(i) => Some(assets[i])
  }

  /** "windows" adds nothing to the test: it contains "win". */
  lemma WindowsLikeIsExeOrWin(n: string)
    ensures IsWindowsLike(n) <==> Contains(n, ".exe") || Contains(n, "win")
  {
    if Contains(n, "windows") {
      ContainsAt("windows", "win", 0);
      ContainsWithin(n, "windows", "win");
    }
  }

  /** On 64 bits every listed marker contains "64", so the test is just that. */
  lemma Arch64IsSubstring(n: string)
    ensures ArchMatches(n, "64") <==> Contains(n, "64")
  {
    if Contains(n, "x64") {
      ContainsAt("x64", "64", 1);
      ContainsWithin(n, "x64", "64");
    }
    if Contains(n, "amd64") {
      ContainsAt("amd64", "64", 3);
      ContainsWithin(n, "amd64", "64");
    }
    if Contains(n, "win64") {
      ContainsAt("win64", "64", 3);
      ContainsWithin(n, "win64", "64");
    }
  }

  /** The test is on substrings, so a macOS build name passes as Windows-like
      through the "win" in "darwin". */
  lemma DarwinLooksWindowsLike()
    ensures IsWindowsLike("i2pd_darwin_x64.tar.gz") && ArchMatches("i2pd_darwin_x64.tar.gz", "64")
  {
    var n := "i2pd_darwin_x64.tar.gz";
    assert n[8..][..3] == "win";
    ContainsAt(n, "win", 8);
    assert n[12..][..3] == "x64";
    ContainsAt(n, "x64", 12);
  }

  /** `tag_name.lstrip('v')`: every leading `v` goes. */
  function StripVersion(tag: string): (v: string)
    ensures |v| <= |tag| && tag == tag[..|tag| - |v|] + v
    ensures forall i :: 0 <= i < |tag| - |v| ==> tag[i] == 'v'
    ensures |v| > 0 ==> v[0] != 'v'
  {
    TrimLeft(tag, {'v'})
  }

  /** Stripping twice is stripping once. */
  lemma StripVersionIdempotent(tag: string)
    ensures StripVersion(StripVersion(tag)) == StripVersion(tag)
  {
    var v := StripVersion(tag);
    if |v| > 0 {
      assert v[0] !in {'v'};
    }
  }

  /** A run of `v`s in front of a version that does not start with one is
      exactly what is dropped. */
  lemma StripVersionOf(prefix: string, version: string)
    requires forall i :: 0 <= i < |prefix| ==> prefix[i] == 'v'
    requires |version| > 0 && version[0] != 'v'
    ensures StripVersion(prefix + version) == version
  {
    TrimLeftRun(prefix, version, {'v'});
  }

  /** `os.path.join("..", name)` for a relative name, with `/` as separator. */
  function DownloadPath(name: string): string {
    "../" + name
  }

  /** Only a `.zip` download is unpacked and removed. */
  predicate ShouldExtract(path: string) {
    EndsWith(path, ".zip")
  }

  /** The decision depends on the asset name alone. */
  lemma ExtractIffZipName(name: string)
    ensures ShouldExtract(DownloadPath(name)) <==> EndsWith(name, ".zip")
  {
    var path := DownloadPath(name);
    if |name| >= 4 {
      assert path[|path| - 4..] == name[|name| - 4..];
    } else if |path| >= 4 {
      // the last four characters overlap the "../" prefix
      var k := |path| - 4;
      if k < 2 {
        assert path[k + 1] != ".zip"[1];
      } else {
        assert path[k] != ".zip"[0];
      }
    }
  }

  /** What `install_from_github` ends with. */
  datatype InstallOutcome =
    | Installed(version: string, asset: Asset, extracted: bool)
    | NoMatchingAsset(version: string)
    | RequestFailed

  /** `install_from_github`: `fetched` is the parsed latest-release answer
      (`None` when the request or its parsing raised) and `downloaded` whether
      the download and the file writes went through. */
  function Install(fetched: Option<Release>, arch: string, downloaded: bool): (r: InstallOutcome)
    ensures fetched.None? ==> r == RequestFailed
    ensures fetched.Some? && SelectAsset(fetched.value.assets, arch).None?
            ==> r == NoMatchingAsset(StripVersion(fetched.value.tagName))
    ensures r.Installed? <==> fetched.Some? && SelectAsset(fetched.value.assets, arch).Some? && downloaded
    ensures r.Installed? ==> r.version == StripVersion(fetched.value.tagName)
                             && r.asset == SelectAsset(fetched.value.assets, arch).value
                             && (r.extracted <==> EndsWith(r.asset.name, ".zip"))
  {
    match fetched
    case None => RequestFailed
    case Some(release) =>
      var version := StripVersion(release.tagName);
      match SelectAsset(release.assets, arch)
      case None => NoMatchingAsset(version)
      case Some(asset) =>
        if !downloaded then RequestFailed
        else
          ExtractIffZipName(asset.name);
          Installed(version, asset, ShouldExtract(DownloadPath(asset.name)))
  }

  /** The function's return value: `True` only after an install. */
  predicate InstallSucceeded(r: InstallOutcome) {
    r.Installed?
  }

  /** A release with no suitable asset never installs, whatever the download
      would have done. */
  lemma NoAssetNoInstall(release: Release, arch: string, downloaded: bool)
    requires forall k :: 0 <= k < |release.assets| ==> !Suitable(arch)(release.assets[k])
    ensures !InstallSucceeded(Install(Some(release), arch, downloaded))
  {
  }

  // ---------------------------------------------------------------------
  // check_router

  /** An entry of the working directory. */
  datatype DirEntry = DirEntry(name: string, isFile: bool)

  /** A file whose lower-cased name contains `i2pd` and ends in `.exe`. */
  function IsRouter(): DirEntry -> bool {
    (e: DirEntry) => e.isFile && Contains(Lower(e.name), "i2pd") && EndsWith(Lower(e.name), ".exe")
  }

  /** The directory loop of `check_router`: the first router file. */
  function FindRouter(listing: seq<DirEntry>): (r: Option<DirEntry>)
    ensures r.Some? ==> r.value.isFile && Contains(Lower(r.value.name), "i2pd") && EndsWith(Lower(r.value.name), ".exe")
    ensures r.Some? ==> exists i :: 0 <= i < |listing| && listing[i] == r.value
                                    && forall k :: 0 <= k < i ==> !IsRouter()(listing[k])
    ensures r.None? <==> forall k :: 0 <= k < |listing| ==> !IsRouter()(listing[k])
  {
    match FirstIndex(listing, IsRouter())
    case None => None
    case Some(i) => Some(listing[i])
  }

  /** The answers that start the automatic install. */
  const InstallWords: set<string> := {"y", "yes"}

  /** `check_router`: a router in the listing decides; otherwise the answer
      to the prompt, the install's return value and the result of the check
      repeated after the install (`recheck`) do. */
  function CheckRouter(listing: seq<DirEntry>, answer: string, installed: bool, recheck: bool): (ok: bool)
    ensures FindRouter(listing).Some? ==> ok
    ensures FindRouter(listing).None? ==> (ok <==> Lower(answer) in InstallWords && installed && recheck)
  {
    if FindRouter(listing).Some? then true
    else if Lower(answer) in InstallWords then installed && recheck
    else false
  }

  /** `y` and `Yes` in any letter case accept the install. */
  lemma AnswerCaseIgnored()
    ensures Lower("Y") in InstallWords && Lower("YES") in InstallWords && Lower("yEs") in InstallWords
  {
    assert Lower("Y") == "y";
    assert Lower("YES") == "yes";
    assert Lower("yEs") == "yes";
  }
}
