/** The version list of a Jenkins job (model/JenkinsVersionViewModel.kt). It
    shares the state of a `VersionViewModel`, held as `base`. */
module Jenkins {
  import opened Wrappers
  import opened KotlinText
  import opened VersionUi
  import opened Utils
  import opened Sorting
  import opened ViewModel
  import SemVer

  /** A job and the package its builds produce. */
  datatype AndroidJob = AndroidJob(jobName: string, pkgName: string, buildNumbers: seq<int>, url: string)

  /** A build of the job with its artifacts. */
  datatype JobBuild = JobBuild(jobName: string, buildNumber: int, revision: string, artifacts: seq<Artifact>)

  /** Which builds the refresh asks the server for. */
  datatype BuildsQuery = AllBuilds | ByBuildNumbers(numbers: seq<int>)

  function BuildNumbers(builds: seq<JobBuild>): seq<int> {
    seq(|builds|, i requires 0 <= i < |builds| => builds[i].buildNumber)
  }

  /** The artifact a build offers the device and its version name, if both exist. */
  function Pick(b: JobBuild, deviceAbi: string): Option<(Artifact, string)> {
    match SelectByABI(b.artifacts, deviceAbi)
    case None => None
    case Some(a) =>
      match ExtractVersionName(a)
      case None => None
      case Some(name) => Some((a, name))
  }

  /** The `mapNotNull` of the refresh. */
  function Picks(builds: seq<JobBuild>, deviceAbi: string): (r: seq<(Artifact, string)>)
    ensures |r| <= |builds|
  {
    if builds == [] then []
    else
      var rest := Picks(builds[1..], deviceAbi);
      match Pick(builds[0], deviceAbi)
      case None => rest
      case Some(p) => [p] + rest
  }

  /** The picks are exactly those of the builds that offer one. */
  lemma {:induction false} PicksAreTheOffered(builds: seq<JobBuild>, deviceAbi: string)
    ensures forall j :: 0 <= j < |builds| && Pick(builds[j], deviceAbi).Some? ==>
      Pick(builds[j], deviceAbi).value in Picks(builds, deviceAbi)
    ensures forall p :: p in Picks(builds, deviceAbi) ==> exists b :: b in builds && Pick(b, deviceAbi) == Some(p)
  {
    if builds != [] {
      PicksAreTheOffered(builds[1..], deviceAbi);
      assert forall j :: 1 <= j < |builds| ==> builds[j] == builds[1..][j - 1];
      forall p | p in Picks(builds[1..], deviceAbi)
        ensures exists b :: b in builds && Pick(b, deviceAbi) == Some(p)
      {
        var b :| b in builds[1..] && Pick(b, deviceAbi) == Some(p);
        assert b in builds;
      }
    }
  }

  /** The version name a build offers parses back into the groups of its
      artifact's file name. */
  lemma PickParses(b: JobBuild, deviceAbi: string)
    requires Pick(b, deviceAbi).Some?
    ensures var (a, name) := Pick(b, deviceAbi).value;
      && ExtractVersionName(a) == Some(name)
      && ParseVersionNumber(name) == Success(VersionNumber(Find(a.fileName).value.tag,
           ToIntOrNull(Find(a.fileName).value.commits).value, Find(a.fileName).value.hash))
  {
    ExtractThenParse(Pick(b, deviceAbi).value.0);
  }

  /** Every picked version name parses, so the names the refresh enters are
      ones `parseVersionNumber` can read. */
  lemma PickedNamesParse(builds: seq<JobBuild>, deviceAbi: string)
    ensures forall p :: p in Picks(builds, deviceAbi) ==>
      ExtractVersionName(p.0) == Some(p.1) && ParseVersionNumber(p.1).Success?
  {
    PicksAreTheOffered(builds, deviceAbi);
    forall p | p in Picks(builds, deviceAbi)
      ensures ExtractVersionName(p.0) == Some(p.1) && ParseVersionNumber(p.1).Success?
    {
      var b :| b in builds && Pick(b, deviceAbi) == Some(p);
      PickParses(b, deviceAbi);
    }
  }

  /** The remote version of a pick. It has no version code, its size is the
      archive's content length in MiB when the server reports one and 0
      otherwise, and it is installed when its name is `installedName`. */
  function JenkinsRemote(p: (Artifact, string), pkgName: string, contentLength: string -> Option<nat>,
                         installedName: string): RemoteVersion
  {
    var size := match contentLength(p.0.url) case Some(n) => BytesToMiB(n) case None => 0.0;
    Remote(pkgName, 0, p.1, size, p.1 == installedName, p.0.url)
  }

  /** The `parallelMap` of the refresh. */
  function RemotesOf(picks: seq<(Artifact, string)>, pkgName: string, contentLength: string -> Option<nat>,
                     installedName: string): (r: seq<RemoteVersion>)
    ensures |r| == |picks|
    ensures forall i :: 0 <= i < |picks| ==> r[i].versionName == picks[i].1 && r[i].downloadUrl == picks[i].0.url
    ensures forall i :: 0 <= i < |picks| ==> (r[i].isInstalled <==> picks[i].1 == installedName)
  {
    ParallelMap<(Artifact, string), RemoteVersion>(picks, p => JenkinsRemote(p, pkgName, contentLength, installedName))
  }

  /** The version `sortedVersions` reads from a name: `parseVersionNumber` and
      then `SemVer.parse` of "$tag-$commitInc"; `None` stands for either throwing. */
  function SemVerOfName(name: string): Option<SemVer.Version> {
    match ParseVersionNumber(name)
    case Failure(_) => None
    case Success(n) => SemVer.Parse(n.tag + "-" + IntToString(n.commitInc))
  }

  /** A build `N` commits after the release tag `X.Y.Z` reads as `X.Y.Z-N`. */
  lemma SemVerOfBuildName(core: SemVer.Version, n: int, hash: string)
    requires core.pre.None? && 0 <= n <= IntMax && '-' !in hash
    ensures SemVerOfName(VersionName(SemVer.Format(core), n, hash)) == Some(core.(pre := Some(n)))
  {
    var tag := SemVer.Format(core);
    SemVer.DigitsHaveNoSeparator(NatToString(core.major), '-');
    SemVer.DigitsHaveNoSeparator(NatToString(core.minor), '-');
    SemVer.DigitsHaveNoSeparator(NatToString(core.patch), '-');
    assert '-' !in tag;
    ParseVersionName(tag, n, hash);
    assert tag + "-" + IntToString(n) == SemVer.Format(core.(pre := Some(n)));
    SemVer.FormatParseRoundTrip(core.(pre := Some(n)));
  }

  /** Of two builds after the same release tag, the one with fewer commits has
      lower precedence, so `sortedVersions` lists the later build first. */
  lemma LaterBuildsComeFirst(core: SemVer.Version, m: int, n: int, h1: string, h2: string)
    requires core.pre.None? && 0 <= m <= IntMax && 0 <= n <= IntMax && '-' !in h1 && '-' !in h2
    ensures var a, b := SemVerOfName(VersionName(SemVer.Format(core), m, h1)), SemVerOfName(VersionName(SemVer.Format(core), n, h2));
      a.Some? && b.Some? && (SemVer.Precedes(a.value, b.value) <==> m < n)
  {
    SemVerOfBuildName(core, m, h1);
    SemVerOfBuildName(core, n, h2);
  }

  function PrecedenceKey(v: VersionUi): seq<int> {
    match SemVerOfName(v.versionName)
    case Some(s) => SemVer.Key(s)
    case None => []
  }

  /** `w` reads as a version with no higher precedence than `v`'s. */
  predicate NoNewer(w: VersionUi, v: VersionUi) {
    && SemVerOfName(w.versionName).Some? && SemVerOfName(v.versionName).Some?
    && (SemVerOfName(w.versionName) == SemVerOfName(v.versionName)
        || SemVer.Precedes(SemVerOfName(w.versionName).value, SemVerOfName(v.versionName).value))
  }

  /** The first entry whose name `sortedVersions` cannot read. */
  function FirstUnparseable(vs: seq<VersionUi>): (r: Option<VersionUi>)
    ensures r.Some? ==> r.value in vs && SemVerOfName(r.value.versionName).None?
    ensures r.None? <==> forall v :: v in vs ==> SemVerOfName(v.versionName).Some?
  {
    if vs == [] then None
    else if SemVerOfName(vs[0].versionName).None? then Some(vs[0])
    else
      assert forall v :: v in vs ==> v == vs[0] || v in vs[1..];
      FirstUnparseable(vs[1..])
  }

  /** Sorted by `PrecedenceKey`, a list of at least two readable names has no
      entry followed by a newer one. */
  lemma SortedByPrecedence(vs: seq<VersionUi>)
    requires |vs| >= 2 ==> forall v :: v in vs ==> SemVerOfName(v.versionName).Some?
    ensures var sorted := SortDescending(vs, PrecedenceKey);
      forall i, j :: 0 <= i < j < |sorted| ==> NoNewer(sorted[j], sorted[i])
  {
    var sorted := SortDescending(vs, PrecedenceKey);
    SortedKeepsElements(vs, PrecedenceKey);
    forall i, j | 0 <= i < j < |sorted|
      ensures NoNewer(sorted[j], sorted[i])
    {
      assert sorted[i] in vs && sorted[j] in vs;
      SemVer.KeyOrdersByPrecedence(SemVerOfName(sorted[j].versionName).value, SemVerOfName(sorted[i].versionName).value);
    }
  }

  /** What `getOrThrow` or `SemVer.parse` throws out of `sortedVersions`. */
  datatype SortError = Unparseable(versionName: string)

  class JenkinsVersionViewModel {
    const job: AndroidJob
    const deviceAbi: string
    const base: VersionViewModel
    var buildNumbers: seq<int>
    /** Refresh coroutines launched that have not started yet. */
    var launched: nat

    ghost predicate Valid()
      reads this, base, base.tasks.Values
    {
      base.Valid()
    }

    constructor (job: AndroidJob, initialBuildNumbers: seq<int>, deviceAbi: string, externalDir: string,
                 info: Option<PackageInfo>, size: Option<real>, listing: Option<seq<DirEntry>>)
      ensures Valid() && base.Merged() && fresh(base)
      ensures this.job == job && this.deviceAbi == deviceAbi && buildNumbers == initialBuildNumbers && launched == 0
      ensures base.name == job.jobName && base.pkgName == job.pkgName && base.url == job.url
      ensures base.installedVersion == InstalledFrom(job.pkgName, info, size)
      ensures !base.hasRefreshed && !base.isRefreshing && base.remoteVersions == map[]
    {
      this.job := job;
      this.deviceAbi := deviceAbi;
      base := new VersionViewModel(job.jobName, job.pkgName, job.url, externalDir, info, size, listing);
      buildNumbers := initialBuildNumbers;
      launched := 0;
    }

    /** `refresh`, up to the launch of its coroutine: nothing while a refresh runs. */
    method Refresh() returns (started: bool)
      requires Valid()
      modifies this
      ensures Valid()
      ensures started <==> !base.isRefreshing
      ensures launched == if started then old(launched) + 1 else old(launched)
      ensures buildNumbers == old(buildNumbers)
    {
      if base.isRefreshing {
        return false;
      }
      launched := launched + 1;
      started := true;
    }

    /** `refreshIfInstalledChanged`: a refresh exactly when the installed
        version name is not the one last recorded. */
    method RefreshIfInstalledChanged(info: Option<PackageInfo>, size: Option<real>) returns (started: bool)
      requires Valid()
      modifies this
      ensures Valid()
      ensures started <==> base.InstalledChanged(info, size) && !base.isRefreshing
      ensures launched == if started then old(launched) + 1 else old(launched)
      ensures buildNumbers == old(buildNumbers)
    {
      started := false;
      if base.InstalledChanged(info, size) {
        started := Refresh();
      }
    }

    /** The start of the refresh coroutine: the flag is raised, the remote map
        emptied, and the builds to fetch are every build once the list has been
        refreshed, and the known build numbers before that. */
    method BeginRefresh() returns (query: BuildsQuery)
      requires Valid() && launched > 0
      modifies this, base
      ensures Valid()
      ensures base.isRefreshing && base.remoteVersions == map[] && launched == old(launched) - 1
      ensures query == if base.hasRefreshed then AllBuilds else ByBuildNumbers(buildNumbers)
      ensures buildNumbers == old(buildNumbers)
      ensures base.localVersions == old(base.localVersions) && base.allVersions == old(base.allVersions)
      ensures base.Downloads() == old(base.Downloads()) && base.Record() == old(base.Record())
    {
      launched := launched - 1;
      base.isRefreshing := true;
      base.remoteVersions := map[];
      query := if base.hasRefreshed then AllBuilds else ByBuildNumbers(buildNumbers);
    }

    /** The bookkeeping of the fetched builds: after the first refresh their
        numbers replace the known ones; the first refresh is marked done. */
    method RecordBuilds(builds: seq<JobBuild>)
      requires Valid()
      modifies this, base
      ensures Valid() && base.hasRefreshed
      ensures buildNumbers == if old(base.hasRefreshed) then BuildNumbers(builds) else old(buildNumbers)
      ensures base.Catalogue() == old(base.Catalogue()) && base.installedVersion == old(base.installedVersion)
      ensures base.isRefreshing == old(base.isRefreshing) && base.lastVersionName == old(base.lastVersionName)
      ensures base.Downloads() == old(base.Downloads()) && launched == old(launched)
      ensures base.toasts == old(base.toasts) && base.deletedFiles == old(base.deletedFiles)
    {
      if base.hasRefreshed {
        buildNumbers := BuildNumbers(builds);
      } else {
        base.hasRefreshed := true;
      }
    }

    /** The rest of the refresh coroutine, once `builds` are fetched: the build
        numbers are recorded (after the first refresh) or the first refresh is
        marked done; each build offering an archive for the device becomes a
        remote version, flagged against the installed version as it was before
        this step; then the combined map is emptied, the installed version and
        the download directory are read again and the remote versions merged in,
        and the flag is lowered. The combined map then agrees with the others. */
    method CompleteRefresh(builds: seq<JobBuild>, contentLength: string -> Option<nat>,
                           info: Option<PackageInfo>, size: Option<real>, listing: Option<seq<DirEntry>>)
      requires Valid()
      modifies this, base
      ensures Valid() && base.hasRefreshed && !base.isRefreshing
      ensures buildNumbers == if old(base.hasRefreshed) then BuildNumbers(builds) else old(buildNumbers)
      ensures base.installedVersion == InstalledFrom(base.pkgName, info, size)
      ensures base.lastVersionName == base.installedVersion.versionName
      ensures base.Downloads() == old(base.Downloads()) && launched == old(launched)
      ensures base.toasts == old(base.toasts) && base.deletedFiles == old(base.deletedFiles)
      ensures var remotes := RemotesOf(Picks(builds, deviceAbi), base.pkgName, contentLength,
                                       old(base.installedVersion).versionName);
        && base.localVersions == Index(if listing.Some? then
             Locals(listing.value, base.downloadDir, base.pkgName, base.installedVersion.versionName) else [])
        && base.remoteVersions == old(base.remoteVersions) + Index(remotes)
        && base.allVersions == base.localVersions + Index(Unshadowed(remotes, base.localVersions.Keys))
      ensures old(base.remoteVersions) == map[] ==> base.Merged()
    {
      var remotes := RemotesOf(Picks(builds, deviceAbi), base.pkgName, contentLength, base.installedVersion.versionName);
      RecordBuilds(builds);
      // `refreshInstalledVersion` touches no map, so reading the installed
      // version before the combined map is emptied comes to the same.
      base.RefreshInstalledVersion(info, size);
      base.Rebuild(remotes, listing);
    }

    /** `sortedVersions`: the combined map's entries by descending precedence
        of the versions their names read as. With two entries or more every
        name is read, so one that cannot be read makes it throw. */
    method SortedVersions() returns (r: Result<seq<VersionUi>, SortError>)
      requires Valid()
      ensures r.Failure? <==> (|base.allVersions| >= 2
        && exists v :: v in base.allVersions.Values && SemVerOfName(v.versionName).None?)
      ensures r.Failure? ==> exists v :: (v in base.allVersions.Values && SemVerOfName(v.versionName).None?
        && r.error == Unparseable(v.versionName))
      ensures r.Success? ==> |r.value| == |base.allVersions| && forall v :: v in r.value <==> v in base.allVersions.Values
      ensures r.Success? ==> forall i, j :: 0 <= i < j < |r.value| ==> NoNewer(r.value[j], r.value[i])
    {
      var vs := base.Values();
      if |vs| >= 2 {
        var bad := FirstUnparseable(vs);
        if bad.Some? {
          return Failure(Unparseable(bad.value.versionName));
        }
      }
      var sorted := SortDescending(vs, PrecedenceKey);
      SortedKeepsElements(vs, PrecedenceKey);
      SortedByPrecedence(vs);
      r := Success(sorted);
    }
  }
}
