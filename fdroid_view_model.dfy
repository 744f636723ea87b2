/** The version list of a plugin published in the F-Droid repository
    (model/FDroidVersionViewModel.kt). It shares the state of a
    `VersionViewModel`, held as `base`. */
module FDroid {
  import opened Wrappers
  import opened KotlinText
  import opened VersionUi
  import opened Sorting
  import opened ViewModel

  /** The prefix that plugin package names share. */
  const PluginPrefix := "org.fcitx.fcitx5.android.plugin."

  /** The list's name: the package name without the plugin prefix, with every
      underscore turned into a dash. */
  function PluginName(pkgName: string): (name: string)
    ensures '_' !in name
    ensures |name| == if PluginPrefix <= pkgName then |pkgName| - |PluginPrefix| else |pkgName|
  {
    Replace(RemovePrefix(pkgName, PluginPrefix), '_', '-')
  }

  /** A plugin package is named by what follows the prefix; a name without
      underscores is kept as it is. */
  lemma PluginNameOfPlugin(suffix: string)
    ensures PluginName(PluginPrefix + suffix) == Replace(suffix, '_', '-')
    ensures '_' !in suffix ==> PluginName(PluginPrefix + suffix) == suffix
  {
    assert RemovePrefix(PluginPrefix + suffix, PluginPrefix) == suffix;
    if '_' !in suffix {
      assert forall i :: 0 <= i < |suffix| ==> Replace(suffix, '_', '-')[i] == suffix[i];
    }
  }

  /** The package as the repository index describes it. */
  datatype FDroidPackage = FDroidPackage(pkgName: string, url: string)

  /** The archive of a published version: its size in MiB, file name and URL. */
  datatype FDroidArtifact = FDroidArtifact(size: real, fileName: string, url: string)

  /** A published version, with the ABIs of its native code when the index lists them. */
  datatype Release = Release(versionCode: int, versionName: string, artifact: FDroidArtifact, abi: Option<seq<string>>)

  /** `it.abi?.contains(deviceABI) != false`: no ABI list, or one naming the device's ABI. */
  predicate Supports(r: Release, deviceAbi: string) {
    r.abi.None? || deviceAbi in r.abi.value
  }

  function RemoteOf(r: Release, pkgName: string, installedCode: int): (v: RemoteVersion)
    ensures v.versionName == r.versionName && v.downloadUrl == r.artifact.url
    ensures v.isInstalled <==> r.versionCode == installedCode
  {
    Remote(pkgName, r.versionCode, r.versionName, r.artifact.size, r.versionCode == installedCode, r.artifact.url)
  }

  /** The `mapNotNull` of the refresh: a remote version per supported release, in order. */
  function Remotes(rs: seq<Release>, deviceAbi: string, pkgName: string, installedCode: int): (out: seq<RemoteVersion>)
    ensures |out| <= |rs|
  {
    if rs == [] then []
    else
      var rest := Remotes(rs[1..], deviceAbi, pkgName, installedCode);
      if Supports(rs[0], deviceAbi) then [RemoteOf(rs[0], pkgName, installedCode)] + rest else rest
  }

  /** The remote versions are exactly those of the supported releases. */
  lemma {:induction false} RemotesAreTheSupported(rs: seq<Release>, deviceAbi: string, pkgName: string, installedCode: int)
    ensures forall j :: 0 <= j < |rs| && Supports(rs[j], deviceAbi) ==>
      RemoteOf(rs[j], pkgName, installedCode) in Remotes(rs, deviceAbi, pkgName, installedCode)
    ensures forall v :: v in Remotes(rs, deviceAbi, pkgName, installedCode) ==>
      exists r :: r in rs && Supports(r, deviceAbi) && v == RemoteOf(r, pkgName, installedCode)
  {
    if rs != [] {
      RemotesAreTheSupported(rs[1..], deviceAbi, pkgName, installedCode);
      assert forall j :: 1 <= j < |rs| ==> rs[j] == rs[1..][j - 1];
      forall v | v in Remotes(rs[1..], deviceAbi, pkgName, installedCode)
        ensures exists r :: r in rs && Supports(r, deviceAbi) && v == RemoteOf(r, pkgName, installedCode)
      {
        var r :| r in rs[1..] && Supports(r, deviceAbi) && v == RemoteOf(r, pkgName, installedCode);
        assert r in rs;
      }
    }
  }

  /** The `when` of the refresh: an installed record is kept, the others are
      copied with the new flag. */
  function WithInstalled(v: VersionUi, isInstalled: bool): (w: VersionUi)
    ensures v.Installed? ==> w == v
    ensures !v.Installed? ==> w.isInstalled == isInstalled && w.(isInstalled := v.isInstalled) == v
  {
    if v.Installed? then v else v.(isInstalled := isInstalled)
  }

  /** Every entry re-flagged by whether its version code is the installed one. */
  function Reflag(m: map<string, VersionUi>, installedCode: int): (r: map<string, VersionUi>)
    ensures r.Keys == m.Keys
    ensures Keyed(m) ==> Keyed(r)
    ensures NoInstalledEntry(m) ==> NoInstalledEntry(r)
    ensures forall k :: k in m && !m[k].Installed? ==>
      r[k].isInstalled == (m[k].versionCode == installedCode) && r[k].(isInstalled := m[k].isInstalled) == m[k]
  {
    map k | k in m :: WithInstalled(m[k], m[k].versionCode == installedCode)
  }

  /** The `forEach` of the refresh: each entry in turn replaced by its re-flagged copy. */
  method ReflagEach(before: map<string, VersionUi>, installedCode: int) returns (all: map<string, VersionUi>)
    ensures all == Reflag(before, installedCode)
  {
    all := before;
    var left := before.Keys;
    while left != {}
      invariant left <= before.Keys && all.Keys == before.Keys
      invariant forall k :: k in before ==>
        all[k] == if k in left then before[k] else WithInstalled(before[k], before[k].versionCode == installedCode)
      decreases |left|
    {
      var k :| k in left;
      all := all[k := WithInstalled(all[k], all[k].versionCode == installedCode)];
      left := left - {k};
    }
  }

  function CodeKey(v: VersionUi): seq<int> {
    [v.versionCode]
  }

  class FDroidVersionViewModel {
    const pkg: FDroidPackage
    const deviceAbi: string
    const base: VersionViewModel
    /** Refresh coroutines launched that have not started yet. */
    var launched: nat

    ghost predicate Valid()
      reads this, base, base.tasks.Values
    {
      base.Valid()
    }

    constructor (pkg: FDroidPackage, deviceAbi: string, externalDir: string,
                 info: Option<PackageInfo>, size: Option<real>, listing: Option<seq<DirEntry>>)
      ensures Valid() && base.Merged() && fresh(base)
      ensures this.pkg == pkg && this.deviceAbi == deviceAbi && launched == 0
      ensures base.name == PluginName(pkg.pkgName) && base.pkgName == pkg.pkgName && base.url == pkg.url
      ensures base.installedVersion == InstalledFrom(pkg.pkgName, info, size)
      ensures !base.hasRefreshed && !base.isRefreshing && base.remoteVersions == map[]
    {
      this.pkg := pkg;
      this.deviceAbi := deviceAbi;
      base := new VersionViewModel(PluginName(pkg.pkgName), pkg.pkgName, pkg.url, externalDir, info, size, listing);
      launched := 0;
    }

    /** `refresh`, up to the launch of its coroutine: nothing while a refresh
        runs; otherwise the installed version is read again and every entry of
        the combined map is re-flagged by its version code. */
    method Refresh(info: Option<PackageInfo>, size: Option<real>) returns (started: bool)
      requires Valid()
      modifies this, base
      ensures Valid()
      ensures started <==> !old(base.isRefreshing)
      ensures !started ==> (
        && base.Record() == old(base.Record()) && base.allVersions == old(base.allVersions)
        && launched == old(launched))
      ensures started ==> (
        && base.installedVersion == InstalledFrom(base.pkgName, info, size)
        && base.lastVersionName == base.installedVersion.versionName
        && base.allVersions == Reflag(old(base.allVersions), base.installedVersion.versionCode)
        && launched == old(launched) + 1)
      ensures base.remoteVersions == old(base.remoteVersions) && base.localVersions == old(base.localVersions)
      ensures base.isRefreshing == old(base.isRefreshing) && base.Downloads() == old(base.Downloads())
      ensures base.toasts == old(base.toasts) && base.deletedFiles == old(base.deletedFiles)
      ensures base.hasRefreshed == old(base.hasRefreshed)
    {
      if base.isRefreshing {
        return false;
      }
      base.RefreshInstalledVersion(info, size);
      var all := ReflagEach(base.allVersions, base.installedVersion.versionCode);
      base.allVersions := all;
      launched := launched + 1;
      started := true;
    }

    /** `refreshIfInstalledChanged`: a refresh exactly when the installed
        version name is not the one last recorded. */
    method RefreshIfInstalledChanged(info: Option<PackageInfo>, size: Option<real>) returns (started: bool)
      requires Valid()
      modifies this, base
      ensures Valid()
      ensures started <==> old(base.InstalledChanged(info, size)) && !old(base.isRefreshing)
      ensures !started ==> (
        && base.Record() == old(base.Record()) && base.allVersions == old(base.allVersions)
        && launched == old(launched))
      ensures started ==> (
        && base.installedVersion == InstalledFrom(base.pkgName, info, size)
        && base.lastVersionName == base.installedVersion.versionName
        && base.allVersions == Reflag(old(base.allVersions), base.installedVersion.versionCode)
        && launched == old(launched) + 1)
      ensures base.remoteVersions == old(base.remoteVersions) && base.localVersions == old(base.localVersions)
      ensures base.isRefreshing == old(base.isRefreshing) && base.Downloads() == old(base.Downloads())
      ensures base.toasts == old(base.toasts) && base.deletedFiles == old(base.deletedFiles)
      ensures base.hasRefreshed == old(base.hasRefreshed)
    {
      started := false;
      if base.InstalledChanged(info, size) {
        started := Refresh(info, size);
      }
    }

    /** The start of the refresh coroutine: the flag is raised and the remote map emptied. */
    method BeginRefresh()
      requires Valid() && launched > 0
      modifies this, base
      ensures Valid()
      ensures base.isRefreshing && base.remoteVersions == map[] && launched == old(launched) - 1
      ensures base.localVersions == old(base.localVersions) && base.allVersions == old(base.allVersions)
      ensures base.Downloads() == old(base.Downloads()) && base.Record() == old(base.Record())
    {
      launched := launched - 1;
      base.isRefreshing := true;
      base.remoteVersions := map[];
    }

    /** The rest of the refresh coroutine, once the repository's versions are
        fetched: the supported ones become remote versions flagged by version
        code, the combined map is emptied, the download directory rescanned and
        the remote versions merged in; then the flag is lowered. The combined
        map then agrees with the others. */
    method CompleteRefresh(releases: seq<Release>, listing: Option<seq<DirEntry>>)
      requires Valid()
      modifies base
      ensures Valid() && !base.isRefreshing
      ensures var remotes := Remotes(releases, deviceAbi, base.pkgName, old(base.installedVersion).versionCode);
        && base.localVersions == Index(if listing.Some? then
             Locals(listing.value, base.downloadDir, base.pkgName, base.installedVersion.versionName) else [])
        && base.remoteVersions == old(base.remoteVersions) + Index(remotes)
        && base.allVersions == base.localVersions + Index(Unshadowed(remotes, base.localVersions.Keys))
      ensures old(base.remoteVersions) == map[] ==> base.Merged()
      ensures base.Downloads() == old(base.Downloads()) && base.Record() == old(base.Record())
    {
      var remotes := Remotes(releases, deviceAbi, base.pkgName, base.installedVersion.versionCode);
      base.Rebuild(remotes, listing);
    }

    /** `sortedVersions`: the combined map's entries, by descending version code. */
    method SortedVersions() returns (r: seq<VersionUi>)
      requires Valid()
      ensures |r| == |base.allVersions|
      ensures forall v :: v in r <==> v in base.allVersions.Values
      ensures forall i, j :: 0 <= i < j < |r| ==> r[j].versionCode <= r[i].versionCode
    {
      var vs := base.Values();
      r := SortDescending(vs, CodeKey);
      SortedKeepsElements(vs, CodeKey);
      forall i, j | 0 <= i < j < |r|
        ensures r[j].versionCode <= r[i].versionCode
      {
        LexLeCons(r[j].versionCode, [], r[i].versionCode, []);
      }
    }
  }
}
