/** The release manifest the mirror serves as `data.json` (lib/data_gen.py): a release read
    from its configuration, its JSON form with the list of downloadable assets, and the
    manifest that files it under its channel. */
module Manifest {
  import opened Strings

  /** A release as configured: its channel, version and creation time. */
  datatype Release = Release(releaseType: string, versionStr: string, time: string)

  /** One downloadable file of a release. */
  datatype Asset = Asset(name: string, url: string)

  /** The JSON object `to_json` returns. */
  datatype ReleaseJson = ReleaseJson(name: string, createdAt: string, assets: seq<Asset>)

  /** The manifest: its format version and the releases of each channel. */
  datatype Data = Data(version: string, stable: seq<Release>, beta: seq<Release>, nightly: seq<Release>)

  const Arches := ["darwin", "darwin_aarch64", "linux", "linux_aarch64", "windows"]
  const Exts := [".tar.zst", ".zip"]
  const BuildFiles := ["CMakeCache.txt", "cmake_install.cmake", "Makefile"]

  /** The configuration the mirror is generated from (lib/config.py). */
  const Config: map<string, string> :=
    map["channel" := "stable", "version" := "4.22.0", "time" := "2025-08-05T12:57:12Z"]

  // ---------------------------------------------------------------- reading the configuration

  /** `Release.from_json`: the three fields copied; a missing key is an error. */
  function FromJson(data: map<string, string>): (r: Option<Release>)
    ensures r.Some? <==> "channel" in data && "version" in data && "time" in data
    ensures r.Some? ==> ConfigOf(r.value) == map k | k in data && k in {"channel", "version", "time"} :: data[k]
  {
    if "channel" in data && "version" in data && "time" in data then
      Some(Release(data["channel"], data["version"], data["time"]))
    else None
  }

  /** The configuration a release is read from. */
  function ConfigOf(r: Release): map<string, string> {
    map["channel" := r.releaseType, "version" := r.versionStr, "time" := r.time]
  }

  /** Reading a release's configuration gives the release back. */
  lemma FromJsonRoundTrip(r: Release)
    ensures FromJson(ConfigOf(r)) == Some(r)
  {
  }

  // ---------------------------------------------------------------- the assets, as specified

  /** The date part of a timestamp: everything before the first `T`. */
  function Date(time: string): string {
    SplitOn(time, 'T')[0]
  }

  function IsStableOrBeta(r: Release): bool {
    r.releaseType == "stable" || r.releaseType == "beta"
  }

  /** The directory the release's assets are downloaded from. */
  function DownloadDir(r: Release): string {
    if IsStableOrBeta(r) then "https://release.lean-lang.org/lean4/v" + r.versionStr
    else "https://github.com/leanprover/lean4-nightly/releases/download/nightly-" + Date(r.time)
  }

  function UrlPrefix(r: Release): string {
    DownloadDir(r) + "/"
  }

  /** What every archive name of the release starts with. */
  function ArchiveStem(r: Release): string {
    if IsStableOrBeta(r) then "lean-" + r.versionStr + "-"
    else "lean-" + r.versionStr + "-nightly-" + Date(r.time) + "-"
  }

  /** The asset named `name` in the release's download directory. */
  function AssetAt(r: Release, name: string): Asset {
    Asset(name, UrlPrefix(r) + name)
  }

  /** The archives, architecture by architecture, `.tar.zst` before `.zip` for each. */
  function Archives(r: Release): (s: seq<Asset>)
    ensures |s| == |Arches| * |Exts|
  {
    seq(|Arches| * |Exts|, k requires 0 <= k < |Arches| * |Exts| =>
      AssetAt(r, ArchiveStem(r) + Arches[k / |Exts|] + Exts[k % |Exts|]))
  }

  /** The three build files beta and nightly releases carry before their archives. */
  function BuildAssets(r: Release): (s: seq<Asset>)
    ensures |s| == |BuildFiles|
  {
    seq(|BuildFiles|, k requires 0 <= k < |BuildFiles| => AssetAt(r, BuildFiles[k]))
  }

  function AssetsOf(r: Release): seq<Asset> {
    if r.releaseType == "stable" then Archives(r) else BuildAssets(r) + Archives(r)
  }

  /** The release's name in the manifest. */
  function NameOf(r: Release): string {
    if IsStableOrBeta(r) then "v" + r.versionStr else "nightly-" + Date(r.time)
  }

  /** What `to_json` returns. */
  function ToJsonSpec(r: Release): ReleaseJson {
    ReleaseJson(NameOf(r), r.time, AssetsOf(r))
  }

  // ---------------------------------------------------------------- the assets, as built

  /** The nested loops over architectures and extensions, appending to `assets`. */
  method AppendArchives(r: Release, assets: seq<Asset>) returns (result: seq<Asset>)
    ensures result == assets + Archives(r)
  {
    result := assets;
    var stem, prefix := ArchiveStem(r), UrlPrefix(r);
    for i := 0 to |Arches|
      invariant result == assets + Archives(r)[..2 * i]
    {
      for e := 0 to |Exts|
        invariant result == assets + Archives(r)[..2 * i + e]
      {
        var name := stem + Arches[i] + Exts[e];
        var url := prefix + name;
        ArchiveAt(r, i, e);
        TakeOneMore(Archives(r), 2 * i + e);
        result := result + [Asset(name, url)];
      }
    }
    assert Archives(r)[..2 * |Arches|] == Archives(r);
  }

  lemma ArchiveAt(r: Release, i: nat, e: nat)
    requires i < |Arches| && e < |Exts|
    ensures |Exts| == 2 && 2 * i + e < |Archives(r)|
    ensures Archives(r)[2 * i + e] == AssetAt(r, ArchiveStem(r) + Arches[i] + Exts[e])
  {
    assert (2 * i + e) / 2 == i && (2 * i + e) % 2 == e;
  }

  lemma TakeOneMore<T>(s: seq<T>, n: nat)
    requires n < |s|
    ensures s[..n + 1] == s[..n] + [s[n]]
  {
  }

  /** `Release.to_json`: stable releases list the archives; beta releases and any other
      channel list the build files first. */
  method ToJson(r: Release) returns (j: ReleaseJson)
    ensures j == ToJsonSpec(r)
  {
    if r.releaseType == "stable" {
      var assets := AppendArchives(r, []);
      return ReleaseJson("v" + r.versionStr, r.time, assets);
    } else if r.releaseType == "beta" {
      var assets := [AssetAt(r, "CMakeCache.txt"), AssetAt(r, "cmake_install.cmake"), AssetAt(r, "Makefile")];
      assert assets == BuildAssets(r);
      assets := AppendArchives(r, assets);
      return ReleaseJson("v" + r.versionStr, r.time, assets);
    } else {
      var date := SplitOn(r.time, 'T')[0];
      var assets := [AssetAt(r, "CMakeCache.txt"), AssetAt(r, "cmake_install.cmake"), AssetAt(r, "Makefile")];
      assert assets == BuildAssets(r);
      assets := AppendArchives(r, assets);
      return ReleaseJson("nightly-" + date, r.time, assets);
    }
  }

  // ---------------------------------------------------------------- properties of the assets

  /** Stable releases have ten assets, the others thirteen. */
  lemma AssetCount(r: Release)
    ensures |ToJsonSpec(r).assets| == if r.releaseType == "stable" then 10 else 13
  {
  }

  /** The archives come architecture-major, extension-minor; beta and nightly releases put
      `CMakeCache.txt`, `cmake_install.cmake` and `Makefile` first. */
  lemma AssetOrder(r: Release)
    ensures var a := ToJsonSpec(r).assets;
      var skip := if r.releaseType == "stable" then 0 else 3;
      && (forall k :: 0 <= k < 10 ==> a[skip + k].name == ArchiveStem(r) + Arches[k / 2] + Exts[k % 2])
      && (skip == 3 ==> a[0].name == "CMakeCache.txt" && a[1].name == "cmake_install.cmake" && a[2].name == "Makefile")
  {
  }

  /** Every asset is downloaded from the release's directory under its own name. */
  lemma UrlsEndWithName(r: Release)
    ensures forall a :: a in ToJsonSpec(r).assets ==>
      a.url == UrlPrefix(r) + a.name && EndsWith(a.url, "/" + a.name)
  {
    var d := DownloadDir(r);
    forall a | a in ToJsonSpec(r).assets
      ensures a.url == UrlPrefix(r) + a.name && EndsWith(a.url, "/" + a.name)
    {
      assert (d + "/") + a.name == d + ("/" + a.name);
    }
  }

  /** Stable and beta assets lie under `https://release.lean-lang.org/lean4/v<version>/`,
      all others under the nightly repository's download directory for `nightly-<date>`. */
  lemma UrlPrefixes(r: Release)
    ensures forall a :: a in ToJsonSpec(r).assets ==> StartsWith(a.url, DownloadDir(r) + "/")
  {
    UrlsEndWithName(r);
    forall a | a in ToJsonSpec(r).assets
      ensures StartsWith(a.url, UrlPrefix(r))
    {
      assert (UrlPrefix(r) + a.name)[..|UrlPrefix(r)|] == UrlPrefix(r);
    }
  }

  /** No two assets of a release share a name. */
  lemma NamesDistinct(r: Release)
    ensures var a := ToJsonSpec(r).assets;
      forall i, j :: 0 <= i < j < |a| ==> a[i].name != a[j].name
  {
    var a := ToJsonSpec(r).assets;
    forall i, j | 0 <= i < j < |a|
      ensures a[i].name != a[j].name
    {
      if r.releaseType == "stable" {
        ArchiveNamesDistinct(r, i, j);
      } else if j < 3 {
        assert a[i] == BuildAssets(r)[i] && a[j] == BuildAssets(r)[j];
        BuildNamesDistinct(i, j);
      } else if i < 3 {
        assert a[i] == BuildAssets(r)[i] && a[j] == Archives(r)[j - 3];
        BuildIsNoArchive(r, i, j - 3);
      } else {
        assert a[i] == Archives(r)[i - 3] && a[j] == Archives(r)[j - 3];
        ArchiveNamesDistinct(r, i - 3, j - 3);
      }
    }
  }

  lemma BuildNamesDistinct(i: nat, j: nat)
    requires i < j < 3
    ensures BuildFiles[i] != BuildFiles[j]
  {
    assert BuildFiles[i][0] != BuildFiles[j][0];
  }

  lemma BuildIsNoArchive(r: Release, i: nat, k: nat)
    requires i < 3 && k < 10
    ensures BuildFiles[i] != Archives(r)[k].name
  {
    ArchiveName(r, k);
    assert Archives(r)[k].name[0] == 'l';
  }

  lemma ArchiveName(r: Release, k: nat)
    requires k < 10
    ensures Archives(r)[k].name == ArchiveStem(r) + Arches[k / 2] + Exts[k % 2]
    ensures ArchiveStem(r)[0] == 'l'
  {
  }

  lemma ArchiveNamesDistinct(r: Release, k1: nat, k2: nat)
    requires k1 < k2 < 10
    ensures Archives(r)[k1].name != Archives(r)[k2].name
  {
    ArchiveName(r, k1);
    ArchiveName(r, k2);
    var stem := ArchiveStem(r);
    var a1, a2, e1, e2 := Arches[k1 / 2], Arches[k2 / 2], Exts[k1 % 2], Exts[k2 % 2];
    if k1 % 2 != k2 % 2 {
      EndsDiffer(stem + a1, e1, stem + a2, e2);
    } else {
      ArchLengthsDistinct(k1 / 2, k2 / 2);
      assert |stem + a1 + e1| != |stem + a2 + e2|;
    }
  }

  lemma EndsDiffer(x1: string, y1: string, x2: string, y2: string)
    requires (y1 == ".tar.zst" && y2 == ".zip") || (y1 == ".zip" && y2 == ".tar.zst")
    ensures x1 + y1 != x2 + y2
  {
    assert (x1 + y1)[|x1 + y1| - 1] == y1[|y1| - 1];
    assert (x2 + y2)[|x2 + y2| - 1] == y2[|y2| - 1];
  }

  lemma ArchLengthsDistinct(i: nat, j: nat)
    requires i < j < 5
    ensures |Arches[i]| != |Arches[j]|
  {
  }

  /** Every release is stamped with its configured time, and named `v<version>` or, for
      any channel but stable and beta, `nightly-<date>`. */
  lemma ReleaseName(r: Release)
    ensures ToJsonSpec(r).createdAt == r.time
    ensures IsStableOrBeta(r) ==> ToJsonSpec(r).name == "v" + r.versionStr
    ensures !IsStableOrBeta(r) ==> ToJsonSpec(r).name == "nightly-" + Date(r.time)
  {
  }

  // ---------------------------------------------------------------- the manifest

  /** `data_gen` without the file write: a manifest of format `"1"` with the release filed
      under its channel; a channel that is not one of the three arrays is an error. */
  function DataGen(release: Release): (m: Option<Data>)
    ensures m.Some? <==> release.releaseType in {"stable", "beta", "nightly"}
    ensures m.Some? ==> m.value.version == "1"
    ensures m.Some? ==> |m.value.stable| + |m.value.beta| + |m.value.nightly| == 1
    ensures m.Some? ==> release in ChannelOf(m.value, release.releaseType)
  {
    match release.releaseType
    case "stable" => Some(Data("1", [release], [], []))
    case "beta" => Some(Data("1", [], [release], []))
    case "nightly" => Some(Data("1", [], [], [release]))
    case _ => None
  }

  /** The array of the manifest a channel names. */
  function ChannelOf(d: Data, channel: string): seq<Release> {
    match channel
    case "stable" => d.stable
    case "beta" => d.beta
    case "nightly" => d.nightly
    case _ => []
  }

  /** The configured release is the stable 4.22.0 release of 2025-08-05; its manifest entry
      is named `v4.22.0` and lists its ten archives. */
  lemma ConfiguredManifest()
    ensures FromJson(Config) == Some(Release("stable", "4.22.0", "2025-08-05T12:57:12Z"))
    ensures DataGen(FromJson(Config).value) ==
      Some(Data("1", [Release("stable", "4.22.0", "2025-08-05T12:57:12Z")], [], []))
    ensures ToJsonSpec(FromJson(Config).value).name == "v4.22.0"
    ensures |ToJsonSpec(FromJson(Config).value).assets| == 10
  {
  }
}
