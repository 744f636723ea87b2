/** The state shared by both version lists (model/VersionViewModel.kt): the
    card state of every remote version (model/RemoteVersionUiState.kt), the
    download task started for it, the installed version, and the remote, local
    and combined version maps, all keyed by version name. */
module ViewModel {
  import opened Wrappers
  import opened KotlinText
  import opened VersionUi
  import opened Download

  /** What the card of a remote version shows. Progress is carried as the
      exact pair the download task reports. */
  datatype RemoteVersionUiState =
    | Downloading(operable: bool, progress: Progress)
    | Pausing(operable: bool, progress: Progress)
    | Downloaded
    | Pending
    | Idle(operable: bool)
    | WaitingRetry

  /** The card states that announce an operation in progress and offer no action. */
  predicate Transitional(s: RemoteVersionUiState) {
    || s == Idle(false)
    || (s.Downloading? && !s.operable)
    || (s.Pausing? && !s.operable)
    || s == WaitingRetry
  }

  /** The progress a new download starts from, the pair standing for `.0f`. */
  const NoProgress := Progress(0, 1)

  /** `cause.message`; the message of the exception raised for a missing length. */
  function ToastText(c: Cause): string {
    match c
    case NoContentLength => "Failed to get content length"
    case IoFailure(m) => m
  }

  /** What the event handler of `download` does for one event: the card state
      it emits, if any, the progress it keeps, and the toast it shows, if any. */
  datatype Reaction = Reaction(state: Option<RemoteVersionUiState>, progress: Progress, toast: Option<string>)

  function React(e: DownloadEvent, progress: Progress): (r: Reaction)
    ensures r.progress == if e.Downloading? then e.progress else progress
    ensures r.toast.Some? <==> e.Failed?
    ensures r.state.None? <==> e.Failed?
    ensures r.state.Some? && (r.state.value.Downloading? || r.state.value.Pausing?) ==>
      r.state.value.progress == r.progress
  {
    match e
    case StartCreating => Reaction(Some(Idle(false)), progress, None)
    case Created => Reaction(Some(Pending), progress, None)
    case StartPausing => Reaction(Some(RemoteVersionUiState.Downloading(false, progress)), progress, None)
    case StartResuming => Reaction(Some(Pausing(false, progress)), progress, None)
    case Resumed => Reaction(Some(Pending), progress, None)
    case Downloaded => Reaction(Some(RemoteVersionUiState.Downloaded), progress, None)
    case Failed(cause) => Reaction(None, progress, Some(ToastText(cause)))
    case Paused => Reaction(Some(Pausing(true, progress)), progress, None)
    case Purged => Reaction(Some(Idle(true)), progress, None)
    case Downloading(p) => Reaction(Some(RemoteVersionUiState.Downloading(true, p)), p, None)
    case StartPurging => Reaction(Some(RemoteVersionUiState.Downloading(false, progress)), progress, None)
    case StartWaitingRetry => Reaction(Some(WaitingRetry), progress, None)
  }

  /** Since a task never emits the `Start…` events, its events never put the
      card into a state without an action: each event the download task emits shows
      pending, paused, idle, downloaded or live progress, or only a toast. */
  lemma TaskEventsKeepCardsOperable(e: DownloadEvent, progress: Progress)
    requires TaskEvent(e)
    ensures React(e, progress).state.None? || !Transitional(React(e, progress).state.value)
    ensures e.Downloading? ==> React(e, progress).state == Some(RemoteVersionUiState.Downloading(true, e.progress))
    ensures e == Paused ==> React(e, progress).state == Some(Pausing(true, progress))
  {
  }

  /** Every entry is filed under its own version name. */
  predicate Keyed(m: map<string, VersionUi>) {
    forall k :: k in m ==> m[k].versionName == k
  }

  /** Entering `vs` one after another into a map by version name: the last
      entry of a name wins. */
  function Index(vs: seq<VersionUi>): (m: map<string, VersionUi>)
    ensures Keyed(m)
  {
    if vs == [] then map[] else Index(vs[..|vs| - 1])[vs[|vs| - 1].versionName := vs[|vs| - 1]]
  }

  /** The names in the index are those of the elements, and each entry is one of them. */
  lemma {:induction false} IndexEntries(vs: seq<VersionUi>)
    ensures forall k :: k in Index(vs) ==> Index(vs)[k] in vs
    ensures forall i :: 0 <= i < |vs| ==> vs[i].versionName in Index(vs)
  {
    if vs != [] {
      var p := vs[..|vs| - 1];
      IndexEntries(p);
      assert vs == p + [vs[|vs| - 1]];
    }
  }

  lemma IndexSnoc(vs: seq<VersionUi>, v: VersionUi)
    ensures Index(vs + [v]) == Index(vs)[v.versionName := v]
  {
    assert (vs + [v])[..|vs|] == vs;
  }

  /** The entry under a name is the last element of that name. */
  lemma {:induction false} IndexLastWins(vs: seq<VersionUi>, i: nat)
    requires i < |vs|
    requires forall j :: i < j < |vs| ==> vs[j].versionName != vs[i].versionName
    ensures vs[i].versionName in Index(vs) && Index(vs)[vs[i].versionName] == vs[i]
  {
    IndexEntries(vs);
    if i < |vs| - 1 {
      var p := vs[..|vs| - 1];
      IndexLastWins(p, i);
      assert vs == p + [vs[|vs| - 1]];
      IndexSnoc(p, vs[|vs| - 1]);
    }
  }

  /** The elements of `vs` whose name is not in `names`, in order. */
  function Unshadowed(vs: seq<VersionUi>, names: set<string>): (r: seq<VersionUi>)
    ensures forall i :: 0 <= i < |r| ==> r[i].versionName !in names
  {
    if vs == [] then []
    else
      var p := Unshadowed(vs[..|vs| - 1], names);
      if vs[|vs| - 1].versionName in names then p else p + [vs[|vs| - 1]]
  }

  /** Indexing the unshadowed elements is indexing all of them and dropping the
      shadowed names. */
  lemma {:induction false} IndexUnshadowed(vs: seq<VersionUi>, names: set<string>)
    ensures forall k :: k in Index(Unshadowed(vs, names)) <==> k in Index(vs) && k !in names
    ensures forall k :: k in Index(Unshadowed(vs, names)) ==> Index(Unshadowed(vs, names))[k] == Index(vs)[k]
  {
    if vs != [] {
      var p, v := vs[..|vs| - 1], vs[|vs| - 1];
      IndexUnshadowed(p, names);
      assert vs == p + [v];
      IndexSnoc(p, v);
      if v.versionName !in names {
        assert Unshadowed(vs, names) == Unshadowed(p, names) + [v];
        IndexSnoc(Unshadowed(p, names), v);
      } else {
        assert Unshadowed(vs, names) == Unshadowed(p, names);
      }
    }
  }

  /** Updating a union under a key of its right operand. */
  lemma UpdateUnion(a: map<string, VersionUi>, b: map<string, VersionUi>, k: string, v: VersionUi)
    ensures (a + b)[k := v] == a + b[k := v]
  {
  }

  /** No element is an installed version. */
  predicate NoneInstalled(vs: seq<VersionUi>) {
    forall i :: 0 <= i < |vs| ==> !vs[i].Installed?
  }

  /** No entry is an installed version. */
  predicate NoInstalledEntry(m: map<string, VersionUi>) {
    forall k :: k in m ==> !m[k].Installed?
  }

  lemma {:induction false} IndexKeepsKinds(vs: seq<VersionUi>)
    requires NoneInstalled(vs)
    ensures NoInstalledEntry(Index(vs))
  {
    if vs != [] {
      IndexKeepsKinds(vs[..|vs| - 1]);
    }
  }

  lemma {:induction false} UnshadowedKeepsKinds(vs: seq<VersionUi>, names: set<string>)
    requires NoneInstalled(vs)
    ensures NoneInstalled(Unshadowed(vs, names))
  {
    if vs != [] {
      UnshadowedKeepsKinds(vs[..|vs| - 1], names);
    }
  }

  /** A union of keyed maps without installed versions is one. */
  lemma UnionKeepsShape(a: map<string, VersionUi>, b: map<string, VersionUi>)
    requires Keyed(a) && Keyed(b) && NoInstalledEntry(a) && NoInstalledEntry(b)
    ensures Keyed(a + b) && NoInstalledEntry(a + b)
  {
  }

  /** One step of entering `vs` into a map, and into another unless shadowed. */
  lemma EnterStep(r0: map<string, VersionUi>, a0: map<string, VersionUi>, vs: seq<VersionUi>, i: nat, names: set<string>)
    requires i < |vs|
    ensures (r0 + Index(vs[..i]))[vs[i].versionName := vs[i]] == r0 + Index(vs[..i + 1])
    ensures vs[i].versionName !in names ==>
      (a0 + Index(Unshadowed(vs[..i], names)))[vs[i].versionName := vs[i]] == a0 + Index(Unshadowed(vs[..i + 1], names))
    ensures vs[i].versionName in names ==> Unshadowed(vs[..i + 1], names) == Unshadowed(vs[..i], names)
  {
    var v := vs[i];
    assert vs[..i + 1] == vs[..i] + [v];
    assert vs[..i + 1][..i] == vs[..i];
    IndexSnoc(vs[..i], v);
    UpdateUnion(r0, Index(vs[..i]), v.versionName, v);
    if v.versionName !in names {
      assert Unshadowed(vs[..i + 1], names) == Unshadowed(vs[..i], names) + [v];
      IndexSnoc(Unshadowed(vs[..i], names), v);
      UpdateUnion(a0, Index(Unshadowed(vs[..i], names)), v.versionName, v);
    }
  }

  /** The loop of the merge: every remote version goes into `remote`, and into
      `all` unless its name is in `names`. */
  method EnterRemotes(remote0: map<string, RemoteVersion>, all0: map<string, VersionUi>, names: set<string>,
                      remotes: seq<RemoteVersion>)
    returns (remote: map<string, RemoteVersion>, all: map<string, VersionUi>)
    ensures remote == remote0 + Index(remotes)
    ensures all == all0 + Index(Unshadowed(remotes, names))
  {
    remote, all := remote0, all0;
    var i := 0;
    while i < |remotes|
      invariant 0 <= i <= |remotes|
      invariant remote == remote0 + Index(remotes[..i])
      invariant all == all0 + Index(Unshadowed(remotes[..i], names))
    {
      var v := remotes[i];
      EnterStep(remote0, all0, remotes, i, names);
      remote := remote[v.versionName := v];
      if v.versionName !in names {
        all := all[v.versionName := v];
      }
      i := i + 1;
    }
    assert remotes[..i] == remotes;
  }

  /** The loop of the local refresh: every archive goes into a fresh local
      map and into `all`. */
  method EnterLocals(all0: map<string, VersionUi>, found: seq<VersionUi>)
    returns (local: map<string, LocalVersion>, all: map<string, VersionUi>)
    requires forall i :: 0 <= i < |found| ==> found[i].Local?
    ensures local == Index(found)
    ensures all == all0 + Index(found)
  {
    local, all := map[], all0;
    var i := 0;
    while i < |found|
      invariant 0 <= i <= |found|
      invariant local == Index(found[..i])
      invariant all == all0 + Index(found[..i])
    {
      var v: LocalVersion := found[i];
      assert found[..i + 1] == found[..i] + [v];
      IndexSnoc(found[..i], v);
      UpdateUnion(all0, Index(found[..i]), v.versionName, v);
      local := local[v.versionName := v];
      all := all[v.versionName := v];
      i := i + 1;
    }
    assert found[..i] == found;
  }

  /** The combined map shows every downloaded archive, and every remote version
      of a name with no archive, and nothing else. */
  predicate MergedMaps(all: map<string, VersionUi>, local: map<string, VersionUi>, remote: map<string, VersionUi>) {
    && all.Keys == local.Keys + remote.Keys
    && (forall k :: k in local ==> all[k] == local[k])
    && (forall k :: k in remote && k !in local ==> all[k] == remote[k])
  }

  /** The merge both refreshes end with: starting from the archives alone,
      entering every remote version whose name has no archive shows exactly
      the merged picture. */
  lemma MergeShowsArchivesFirst(local: map<string, VersionUi>, remotes: seq<VersionUi>)
    ensures MergedMaps(local + Index(Unshadowed(remotes, local.Keys)), local, Index(remotes))
  {
    IndexUnshadowed(remotes, local.Keys);
  }

  /** Dropping the archive of name `n`: the combined map falls back to the
      remote version of that name or loses the name, the maps keep their
      shape, and agreeing maps keep agreeing. */
  lemma DropArchive(all: map<string, VersionUi>, local: map<string, VersionUi>, remote: map<string, RemoteVersion>, n: string)
    requires Keyed(all) && Keyed(local) && Keyed(remote) && NoInstalledEntry(all)
    ensures var all' := if n in remote then all[n := remote[n]] else all - {n};
      && Keyed(all') && NoInstalledEntry(all') && Keyed(local - {n})
      && (MergedMaps(all, local, remote) ==> MergedMaps(all', local - {n}, remote))
  {
  }

  /** Entering a downloaded archive under its name in the local and combined
      maps keeps their shape, and agreeing maps keep agreeing. */
  lemma EnterArchive(all: map<string, VersionUi>, local: map<string, VersionUi>, remote: map<string, VersionUi>, v: LocalVersion)
    requires Keyed(all) && Keyed(local) && NoInstalledEntry(all)
    ensures Keyed(all[v.versionName := v]) && Keyed(local[v.versionName := v]) && NoInstalledEntry(all[v.versionName := v])
    ensures MergedMaps(all, local, remote) ==> MergedMaps(all[v.versionName := v], local[v.versionName := v], remote)
  {
  }

  /** The version name and code `PackageUtils.getVersionInfo` reads from an APK. */
  datatype PackageInfo = PackageInfo(versionName: string, versionCode: int)

  /** A file in the download directory: its name, its length, and the package
      information the APK yields, if any. */
  datatype DirEntry = DirEntry(name: string, length: nat, info: Option<PackageInfo>)

  /** `File.extension`: what follows the last dot of the name, or nothing. */
  function Extension(name: string): string {
    SubstringAfterLast(name, '.', "")
  }

  /** `bytesToMiB`, taken to be a division by 2^20. */
  function BytesToMiB(bytes: nat): real {
    bytes as real / 1048576.0
  }

  /** The entries `refreshLocalVersions` keeps: `.apk` files that yield package information. */
  predicate IsArchive(e: DirEntry) {
    Extension(e.name) == "apk" && e.info.Some?
  }

  function LocalOf(e: DirEntry, dir: string, pkgName: string, installedName: string): (v: VersionUi)
    requires e.info.Some?
    ensures v.Local?
  {
    Local(e.info.value.versionCode, pkgName, e.info.value.versionName, BytesToMiB(e.length),
          installedName == e.info.value.versionName, dir + "/" + e.name)
  }

  /** The archives of a directory listing, in listing order. */
  function Locals(entries: seq<DirEntry>, dir: string, pkgName: string, installedName: string): (r: seq<VersionUi>)
    ensures forall i :: 0 <= i < |r| ==> r[i].Local?
  {
    if entries == [] then []
    else
      var rest := Locals(entries[1..], dir, pkgName, installedName);
      if IsArchive(entries[0]) then [LocalOf(entries[0], dir, pkgName, installedName)] + rest else rest
  }

  /** `v` is the archive made from some archive entry of `entries`. */
  ghost predicate FromArchive(v: VersionUi, entries: seq<DirEntry>, dir: string, pkgName: string, installedName: string) {
    exists j :: 0 <= j < |entries| && IsArchive(entries[j]) && v == LocalOf(entries[j], dir, pkgName, installedName)
  }

  /** Every element of `Locals` is made from an archive entry of the listing. */
  lemma {:induction false} LocalsComeFromArchives(entries: seq<DirEntry>, dir: string, pkgName: string, installedName: string)
    ensures forall v :: v in Locals(entries, dir, pkgName, installedName) ==> FromArchive(v, entries, dir, pkgName, installedName)
  {
    if entries != [] {
      LocalsComeFromArchives(entries[1..], dir, pkgName, installedName);
      forall v | v in Locals(entries[1..], dir, pkgName, installedName)
        ensures FromArchive(v, entries, dir, pkgName, installedName)
      {
        var j :| 0 <= j < |entries[1..]| && IsArchive(entries[1..][j]) && v == LocalOf(entries[1..][j], dir, pkgName, installedName);
        assert entries[j + 1] == entries[1..][j];
      }
      if IsArchive(entries[0]) {
        assert FromArchive(LocalOf(entries[0], dir, pkgName, installedName), entries, dir, pkgName, installedName);
      }
    }
  }

  /** Every archive entry of the listing gives an element of `Locals`. */
  lemma {:induction false} ArchivesReachLocals(entries: seq<DirEntry>, dir: string, pkgName: string, installedName: string)
    ensures forall j :: 0 <= j < |entries| && IsArchive(entries[j]) ==>
      LocalOf(entries[j], dir, pkgName, installedName) in Locals(entries, dir, pkgName, installedName)
  {
    if entries != [] {
      ArchivesReachLocals(entries[1..], dir, pkgName, installedName);
      assert forall j :: 1 <= j < |entries| ==> entries[j] == entries[1..][j - 1];
    }
  }

  /** `getInstalled`: the installed package when both its version information
      and its size are known, `NotInstalled` otherwise. */
  function InstalledFrom(pkgName: string, info: Option<PackageInfo>, size: Option<real>): (v: VersionUi)
    ensures v.Installed?
    ensures v.isInstalled <==> info.Some? && size.Some?
    ensures v.isInstalled ==> (v.pkgName == pkgName && v.versionName == info.value.versionName
      && v.versionCode == info.value.versionCode && v.size == size.value)
    ensures !v.isInstalled ==> v == NotInstalled
  {
    if info.Some? && size.Some? then InstalledVersion(info.value.versionCode, pkgName, info.value.versionName, size.value)
    else NotInstalled
  }

  /** The `NoSuchElementException` of `getValue` when `download` is called for a
      version whose card state was never requested. */
  datatype DownloadError = NoCardState

  /** Every task is valid and has a card state and a progress, and every
      version map is keyed by version name and holds only its own kind. */
  ghost predicate WellKept(uiStates: map<RemoteVersion, RemoteVersionUiState>, progress: map<RemoteVersion, Progress>,
                           tasks: map<RemoteVersion, DownloadTask>, remote: map<string, RemoteVersion>,
                           local: map<string, LocalVersion>, all: map<string, VersionUi>)
    reads tasks.Values
  {
    && (forall r :: r in tasks ==> r in uiStates && r in progress && tasks[r].Valid())
    && Keyed(remote) && Keyed(local) && Keyed(all)
    && NoInstalledEntry(all)
  }

  class VersionViewModel {
    const name: string
    const pkgName: string
    const url: string
    const downloadDir: string
    var hasRefreshed: bool
    var isRefreshing: bool
    var uiStates: map<RemoteVersion, RemoteVersionUiState>
    var tasks: map<RemoteVersion, DownloadTask>
    /** The `progress` each `download` call's handler keeps. */
    var progress: map<RemoteVersion, Progress>
    var installedVersion: VersionUi
    var remoteVersions: map<string, RemoteVersion>
    var localVersions: map<string, LocalVersion>
    var allVersions: map<string, VersionUi>
    var lastVersionName: string
    /** Every message emitted on `toastMessage`, oldest first. */
    var toasts: seq<string>
    /** Every archive file deleted, oldest first. */
    var deletedFiles: seq<string>

    /** Every task is valid and has a card state and a progress, and every
        version map is keyed by version name and holds only its own kind. */
    ghost predicate Valid()
      reads this, tasks.Values
    {
      WellKept(uiStates, progress, tasks, remoteVersions, localVersions, allVersions)
    }

    /** The combined map agrees with the remote and local maps. */
    ghost predicate Merged()
      reads this
    {
      MergedMaps(allVersions, localVersions, remoteVersions)
    }

    /** The three version maps together. */
    ghost function Catalogue(): (map<string, RemoteVersion>, map<string, LocalVersion>, map<string, VersionUi>)
      reads this
    {
      (remoteVersions, localVersions, allVersions)
    }

    /** The downloads: card states, tasks and progress. */
    ghost function Downloads(): (map<RemoteVersion, RemoteVersionUiState>, map<RemoteVersion, DownloadTask>, map<RemoteVersion, Progress>)
      reads this
    {
      (uiStates, tasks, progress)
    }

    /** What a rescan of the version lists leaves alone besides the downloads. */
    ghost function Record(): (VersionUi, string, seq<string>, seq<string>, bool)
      reads this
    {
      (installedVersion, lastVersionName, toasts, deletedFiles, hasRefreshed)
    }

    /** The file a task for version `versionName` downloads to. */
    function ArchivePath(versionName: string): string {
      downloadDir + "/" + versionName + ".apk"
    }

    /** The archive the handler records when a download completes. */
    function DownloadedArchive(remote: RemoteVersion): (v: LocalVersion)
      reads this
      requires remote in tasks
      ensures v.versionName == remote.versionName && v.archiveFile == tasks[remote].path
    {
      Local(remote.versionCode, pkgName, remote.versionName, remote.size,
            installedVersion.versionName == remote.versionName, tasks[remote].path)
    }

    /** The construction and `init`: the installed version is read, then the
        download directory is scanned. */
    constructor (name: string, pkgName: string, url: string, externalDir: string,
                 info: Option<PackageInfo>, size: Option<real>, listing: Option<seq<DirEntry>>)
      ensures Valid() && Merged()
      ensures this.name == name && this.pkgName == pkgName && this.url == url
      ensures downloadDir == externalDir + "/" + name
      ensures !hasRefreshed && !isRefreshing && uiStates == map[] && tasks == map[] && progress == map[]
      ensures installedVersion == InstalledFrom(pkgName, info, size)
      ensures lastVersionName == installedVersion.versionName
      ensures remoteVersions == map[] && toasts == [] && deletedFiles == []
      ensures localVersions == allVersions
      ensures localVersions == Index(if listing.Some? then Locals(listing.value, downloadDir, pkgName, installedVersion.versionName) else [])
    {
      this.name := name;
      this.pkgName := pkgName;
      this.url := url;
      downloadDir := externalDir + "/" + name;
      hasRefreshed := false;
      isRefreshing := false;
      uiStates := map[];
      tasks := map[];
      progress := map[];
      installedVersion := NotInstalled;
      remoteVersions := map[];
      localVersions := map[];
      allVersions := map[];
      lastVersionName := "";
      toasts := [];
      deletedFiles := [];
      new;
      RefreshInstalledVersion(info, size);
      RefreshLocalVersions(listing);
    }

    /** `getRemoteUiState`: the card state, created idle and operable on first request. */
    method GetRemoteUiState(remote: RemoteVersion) returns (s: RemoteVersionUiState)
      requires Valid()
      modifies this
      ensures Valid()
      ensures s == if remote in old(uiStates) then old(uiStates)[remote] else Idle(true)
      ensures uiStates == old(uiStates)[remote := s]
      ensures tasks == old(tasks) && progress == old(progress) && Catalogue() == old(Catalogue())
      ensures isRefreshing == old(isRefreshing) && Record() == old(Record())
    {
      if remote in uiStates {
        s := uiStates[remote];
      } else {
        s := Idle(true);
        uiStates := uiStates[remote := s];
      }
    }

    /** `download`: fails unless the card state exists; otherwise makes a task
        for the version's URL and archive path, resets the progress to zero,
        starts the download task and files it under the version. */
    method Download(remote: RemoteVersion, onDisk: seq<byte>) returns (r: Outcome<DownloadError>)
      requires Valid()
      modifies this
      ensures Valid()
      ensures r == if remote in old(uiStates) then Pass else Fail(NoCardState)
      ensures r.Fail? ==> tasks == old(tasks) && progress == old(progress)
      ensures r.Pass? ==> (
        && remote in tasks && fresh(tasks[remote])
        && tasks == old(tasks)[remote := tasks[remote]]
        && progress == old(progress)[remote := NoProgress]
        && tasks[remote].url == remote.downloadUrl && tasks[remote].path == ArchivePath(remote.versionName)
        && tasks[remote].file == onDisk && tasks[remote].job == Some(Launched(AnnounceCreated))
        && !tasks[remote].created && tasks[remote].events == [])
      ensures uiStates == old(uiStates) && Catalogue() == old(Catalogue())
      ensures isRefreshing == old(isRefreshing) && Record() == old(Record())
    {
      if remote !in uiStates {
        return Fail(NoCardState);
      }
      var task := new DownloadTask(remote.downloadUrl, ArchivePath(remote.versionName), onDisk);
      progress := progress[remote := NoProgress];
      var started := task.Start();
      tasks := tasks[remote := task];
      r := Pass;
    }

    /** The handler `download` attaches to the download task's events: applies the
        reaction and, on `Downloaded`, files the archive in the local and the
        combined map. An agreeing catalogue keeps agreeing. */
    method OnEvent(remote: RemoteVersion, e: DownloadEvent)
      requires Valid() && remote in tasks
      modifies this
      ensures Valid()
      ensures var re := React(e, old(progress)[remote]);
        && progress == old(progress)[remote := re.progress]
        && uiStates == (if re.state.Some? then old(uiStates)[remote := re.state.value] else old(uiStates))
        && toasts == old(toasts) + (if re.toast.Some? then [re.toast.value] else [])
      ensures e == DownloadEvent.Downloaded ==> (
        && localVersions == old(localVersions)[remote.versionName := old(DownloadedArchive(remote))]
        && allVersions == old(allVersions)[remote.versionName := old(DownloadedArchive(remote))]
        && remoteVersions == old(remoteVersions))
      ensures e != DownloadEvent.Downloaded ==> Catalogue() == old(Catalogue())
      ensures old(Merged()) ==> Merged()
      ensures tasks == old(tasks) && installedVersion == old(installedVersion) && isRefreshing == old(isRefreshing)
      ensures hasRefreshed == old(hasRefreshed) && lastVersionName == old(lastVersionName) && deletedFiles == old(deletedFiles)
    {
      var re := React(e, progress[remote]);
      progress := progress[remote := re.progress];
      if re.state.Some? {
        uiStates := uiStates[remote := re.state.value];
      }
      if re.toast.Some? {
        toasts := toasts + [re.toast.value];
      }
      if e == DownloadEvent.Downloaded {
        FileArchive(remote);
      }
    }

    /** The `Downloaded` branch of the handler: the archive of the finished
        download is filed under its version name in the local and the combined map. */
    method FileArchive(remote: RemoteVersion)
      requires Valid() && remote in tasks
      modifies this
      ensures Valid()
      ensures localVersions == old(localVersions)[remote.versionName := old(DownloadedArchive(remote))]
      ensures allVersions == old(allVersions)[remote.versionName := old(DownloadedArchive(remote))]
      ensures old(Merged()) ==> Merged()
      ensures remoteVersions == old(remoteVersions) && isRefreshing == old(isRefreshing)
      ensures Downloads() == old(Downloads()) && Record() == old(Record())
    {
      var local := DownloadedArchive(remote);
      EnterArchive(allVersions, localVersions, remoteVersions, local);
      localVersions := localVersions[remote.versionName := local];
      allVersions := allVersions[remote.versionName := local];
    }

    /** `pauseDownload`: pauses the version's task, if there is one. */
    method PauseDownload(remote: RemoteVersion) returns (r: Outcome<TaskError>)
      requires Valid()
      modifies if remote in tasks then {tasks[remote]} else {}
      ensures Valid()
      ensures remote !in tasks ==> r == Pass
      ensures remote in tasks ==> (
        && r == (if !old(tasks[remote].created) || old(tasks[remote].job).None? then Fail(AlreadyPaused) else Pass)
        && tasks[remote].job == (if r.Pass? then None else old(tasks[remote].job))
        && tasks[remote].file == old(tasks[remote].file) && tasks[remote].created == old(tasks[remote].created)
        && tasks[remote].events == old(tasks[remote].events) + (if r.Pass? then [Paused] else []))
    {
      r := Pass;
      if remote in tasks {
        r := tasks[remote].Pause();
      }
    }

    /** `resumeDownload`: resumes the version's task, if there is one. */
    method ResumeDownload(remote: RemoteVersion) returns (r: Outcome<TaskError>)
      requires Valid()
      modifies if remote in tasks then {tasks[remote]} else {}
      ensures Valid()
      ensures remote !in tasks ==> r == Pass
      ensures remote in tasks ==> (
        && r == (if !old(tasks[remote].created) || old(tasks[remote].job).Some? then Fail(NotPaused) else Pass)
        && tasks[remote].job == (if r.Pass? then Some(Launched(AnnounceResumed)) else old(tasks[remote].job))
        && tasks[remote].file == old(tasks[remote].file) && tasks[remote].created == old(tasks[remote].created)
        && tasks[remote].events == old(tasks[remote].events))
    {
      r := Pass;
      if remote in tasks {
        r := tasks[remote].Resume();
      }
    }

    /** `cancelDownload`: purges the version's task, if there is one. */
    method CancelDownload(remote: RemoteVersion)
      requires Valid()
      modifies if remote in tasks then {tasks[remote]} else {}
      ensures Valid()
      ensures remote in tasks ==> (
        && tasks[remote].job == None && !tasks[remote].created && tasks[remote].file == []
        && tasks[remote].events == old(tasks[remote].events) + [Purged])
    {
      if remote in tasks {
        tasks[remote].Purge();
      }
    }

    /** `getRemoteUrl`: the download URL of the remote version of the archive's name. */
    function GetRemoteUrl(local: LocalVersion): (r: Option<string>)
      reads this, tasks.Values
      requires Valid()
      ensures r.Some? <==> exists v :: v in remoteVersions.Values && v.versionName == local.versionName
      ensures r.Some? ==> forall v :: v in remoteVersions.Values && v.versionName == local.versionName ==> v.downloadUrl == r.value
    {
      if local.versionName in remoteVersions then Some(remoteVersions[local.versionName].downloadUrl) else None
    }

    /** `delete`: deletes the archive file and drops it from the local map; the
        combined map then shows the remote version of that name, whose card
        turns idle, or nothing. An agreeing catalogue keeps agreeing. */
    method Delete(local: LocalVersion)
      requires Valid()
      modifies this
      ensures Valid()
      ensures deletedFiles == old(deletedFiles) + [local.archiveFile]
      ensures localVersions == old(localVersions) - {local.versionName}
      ensures remoteVersions == old(remoteVersions)
      ensures var n := local.versionName;
        if n in old(remoteVersions) then
          var remote := old(remoteVersions)[n];
          && allVersions == old(allVersions)[n := remote]
          && uiStates == (if remote in old(uiStates) then old(uiStates)[remote := Idle(true)] else old(uiStates))
        else allVersions == old(allVersions) - {n} && uiStates == old(uiStates)
      ensures old(Merged()) ==> Merged()
      ensures tasks == old(tasks) && progress == old(progress) && toasts == old(toasts)
      ensures installedVersion == old(installedVersion) && lastVersionName == old(lastVersionName)
      ensures hasRefreshed == old(hasRefreshed) && isRefreshing == old(isRefreshing)
    {
      deletedFiles := deletedFiles + [local.archiveFile];
      var version := local.versionName;
      DropArchive(allVersions, localVersions, remoteVersions, version);
      localVersions := localVersions - {version};
      FallBack(version);
    }

    /** The end of `delete`: the combined map shows the remote version of the
        name, whose card turns idle, or loses the name. */
    method FallBack(version: string)
      requires Valid()
      modifies this
      ensures Valid()
      ensures if version in remoteVersions then
          var remote := remoteVersions[version];
          && allVersions == old(allVersions)[version := remote]
          && uiStates == (if remote in old(uiStates) then old(uiStates)[remote := Idle(true)] else old(uiStates))
        else allVersions == old(allVersions) - {version} && uiStates == old(uiStates)
      ensures remoteVersions == old(remoteVersions) && localVersions == old(localVersions)
      ensures tasks == old(tasks) && progress == old(progress)
      ensures isRefreshing == old(isRefreshing) && Record() == old(Record())
    {
      DropArchive(allVersions, localVersions, remoteVersions, version);
      if version in remoteVersions {
        var remote := remoteVersions[version];
        allVersions := allVersions[version := remote];
        if remote in uiStates {
          uiStates := uiStates[remote := Idle(true)];
        }
      } else {
        allVersions := allVersions - {version};
      }
    }

    /** Whether `refreshIfInstalledChanged` refreshes: the installed version name
        differs from the one last recorded. */
    function InstalledChanged(info: Option<PackageInfo>, size: Option<real>): (changed: bool)
      reads this
      ensures changed <==> InstalledFrom(pkgName, info, size).versionName != lastVersionName
    {
      InstalledFrom(pkgName, info, size).versionName != lastVersionName
    }

    /** `refreshInstalledVersion`. */
    method RefreshInstalledVersion(info: Option<PackageInfo>, size: Option<real>)
      requires Valid()
      modifies this
      ensures Valid()
      ensures installedVersion == InstalledFrom(pkgName, info, size)
      ensures lastVersionName == installedVersion.versionName
      ensures !InstalledChanged(info, size)
      ensures uiStates == old(uiStates) && tasks == old(tasks) && progress == old(progress)
      ensures Catalogue() == old(Catalogue()) && toasts == old(toasts) && deletedFiles == old(deletedFiles)
      ensures hasRefreshed == old(hasRefreshed) && isRefreshing == old(isRefreshing)
    {
      installedVersion := InstalledFrom(pkgName, info, size);
      lastVersionName := installedVersion.versionName;
    }

    /** `refreshLocalVersions`: the local map is emptied and, when the directory
        can be listed, refilled with its archives, which are also entered in the
        combined map; entries of the combined map for archives that are gone stay. */
    method RefreshLocalVersions(listing: Option<seq<DirEntry>>)
      requires Valid()
      modifies this
      ensures Valid()
      ensures var found := if listing.Some? then Locals(listing.value, downloadDir, pkgName, installedVersion.versionName) else [];
        && localVersions == Index(found)
        && allVersions == old(allVersions) + Index(found)
      ensures remoteVersions == old(remoteVersions) && isRefreshing == old(isRefreshing)
      ensures Downloads() == old(Downloads()) && Record() == old(Record())
    {
      localVersions := map[];
      if listing.None? {
        assert allVersions == old(allVersions) + Index([]);
        return;
      }
      var found := Locals(listing.value, downloadDir, pkgName, installedVersion.versionName);
      IndexKeepsKinds(found);
      UnionKeepsShape(allVersions, Index(found));
      localVersions, allVersions := EnterLocals(allVersions, found);
    }

    /** The `forEach` both refreshes end with: every remote version is entered
        in the remote map, and in the combined map unless an archive of its
        name exists. */
    method MergeRemotes(remotes: seq<RemoteVersion>)
      requires Valid()
      modifies this
      ensures Valid()
      ensures remoteVersions == old(remoteVersions) + Index(remotes)
      ensures allVersions == old(allVersions) + Index(Unshadowed(remotes, localVersions.Keys))
      ensures localVersions == old(localVersions) && isRefreshing == old(isRefreshing)
      ensures Downloads() == old(Downloads()) && Record() == old(Record())
    {
      UnshadowedKeepsKinds(remotes, localVersions.Keys);
      IndexKeepsKinds(Unshadowed(remotes, localVersions.Keys));
      UnionKeepsShape(allVersions, Index(Unshadowed(remotes, localVersions.Keys)));
      remoteVersions, allVersions := EnterRemotes(remoteVersions, allVersions, localVersions.Keys, remotes);
    }

    /** The combined map emptied and the download directory rescanned: the
        combined map then holds the archives alone. */
    method Rescan(listing: Option<seq<DirEntry>>)
      requires Valid()
      modifies this
      ensures Valid()
      ensures localVersions == Index(if listing.Some? then
        Locals(listing.value, downloadDir, pkgName, installedVersion.versionName) else [])
      ensures allVersions == localVersions
      ensures remoteVersions == old(remoteVersions) && isRefreshing == old(isRefreshing)
      ensures Downloads() == old(Downloads()) && Record() == old(Record())
    {
      allVersions := map[];
      RefreshLocalVersions(listing);
      assert allVersions == localVersions;
    }

    /** The end of both refresh coroutines: the combined map is emptied, the
        download directory rescanned and `remotes` merged in, and the flag is
        lowered. When the remote map was empty before, the combined map then
        agrees with the others. */
    method Rebuild(remotes: seq<RemoteVersion>, listing: Option<seq<DirEntry>>)
      requires Valid()
      modifies this
      ensures Valid() && !isRefreshing
      ensures localVersions == Index(if listing.Some? then
        Locals(listing.value, downloadDir, pkgName, installedVersion.versionName) else [])
      ensures remoteVersions == old(remoteVersions) + Index(remotes)
      ensures allVersions == localVersions + Index(Unshadowed(remotes, localVersions.Keys))
      ensures old(remoteVersions) == map[] ==> Merged()
      ensures Downloads() == old(Downloads()) && Record() == old(Record())
    {
      Rescan(listing);
      MergeRemotes(remotes);
      MergeShowsArchivesFirst(localVersions, remotes);
      isRefreshing := false;
    }

    /** `allVersions.values` in some order: each entry once. */
    method Values() returns (vs: seq<VersionUi>)
      requires Keyed(allVersions)
      ensures |vs| == |allVersions|
      ensures forall v :: v in vs <==> v in allVersions.Values
    {
      vs := [];
      var left := allVersions.Keys;
      while left != {}
        invariant left <= allVersions.Keys
        invariant |vs| + |left| == |allVersions|
        invariant forall v :: v in vs <==> exists k :: k in allVersions.Keys - left && allVersions[k] == v
        decreases |left|
      {
        var k :| k in left;
        vs := vs + [allVersions[k]];
        left := left - {k};
      }
      assert allVersions.Keys - left == allVersions.Keys;
    }
  }
}
