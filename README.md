# fcitx5-android updater: verified model of the download and version-list core

This project models the core of the fcitx5-android updater, an Android app
that lists the versions of fcitx5-android and its plugins and downloads,
installs and deletes their APKs. Versions come from two kinds of source: a
Jenkins CI job, or a package in an F-Droid repository. The model covers five
parts:

- **The download task** (`download_task.dfy`, module `Download`). This is a
  resumable, ranged HTTP download into one file. It has a small state
  machine of `job`, `created` and `finished`, and the operations `start`,
  `pause`, `resume` and `purge`. The job coroutine is modelled in two steps:
  - `EnterJob`: the start offset, the `Range` header, the content-length
    probe and the connection;
  - `Deliver`: the write loop over the reads of the response stream.

  The file is a `seq<byte>` and progress is the exact pair
  `(bytesWritten + start, contentLength)`.
- **The version-string helpers of Utils.kt** (`utils.dfy`, module `Utils`):
  - `selectByABI`;
  - the regular expression `\S*-([^-]+)-([^-]+)-g([^-]+)-\S*` under Java's
    `find`, and `extractVersionName`;
  - `parseVersionNumber`;
  - `parallelMap`.

  Kotlin's string functions (`split`, `toIntOrNull`, `removePrefix`,
  `replace`, `drop`, …) are in `kotlin_text.dfy`.
- **The version records** (`version_ui.dfy`): `Installed`, `Remote` and
  `Local`, the `NotInstalled` placeholder and `displayName`.
- **The shared state of a version list** (`view_model.dfy`, class
  `ViewModel.VersionViewModel`). It holds:
  - the card state of each remote version;
  - the download task started for it;
  - the installed version;
  - the remote, local and combined version maps.

  It also contains the event handler that maps download events to card states.
- **The two concrete lists**:
  - `fdroid_view_model.dfy`: the name derivation, the refresh with its
    `isInstalled` re-flagging and ABI filter, and the sort by version code.
  - `jenkins_view_model.dfy`: the build-number bookkeeping, artifact
    selection, and the sort by the Semantic Versioning precedence of
    `tag-N`.

  Both hold their shared state as a `VersionViewModel` field `base`.
  Semantic Versioning 2.0.0 parsing and precedence (section 11) are in
  `semver.dfy`. A stable insertion sort by a lexicographic key is in
  `sorting.dfy`.

Operations that update state in place are methods of classes. Each contract
gives every field of the object it modifies its new value, or states that it
is unchanged:
- the download task's `start`, `pause`, `resume` and `purge` and its write loop;
- the view model's `getRemoteUiState`, `download`, its event handler,
  `delete` and the refreshes.

The pure code is functions with lemmas. Inputs from the outside world are
parameters:
- the bytes already on disk;
- the content-length probe;
- the connection outcome;
- the reads of the response stream;
- the fetched builds and releases;
- the download directory listing;
- the installed package information;
- the device ABI.

Two invariants hold across the whole model:
- `DownloadTask.Valid()`: `finished` is never true, so `assertNotFinished`
  never throws; a job in its write loop has written exactly the file's bytes
  past its offset; only the events the download task emits are on its flow.
- `VersionViewModel.Valid()`: every task has a card state and a progress, and
  every map is keyed by version name.

The merged picture is the predicate `Merged()`: the combined map holds every
archive, plus every remote version that has no archive of its name. It
holds after construction, is kept by the event handler and by `delete`, and
is re-established by both refreshes.

What the code does, which the model follows:
- The download task emits no `Start…` events.
- The download task has no retry, no temporary-to-final rename and no truncation check.
- `finished` is written only by `clear`, and only to `false`.
- The progress event is called `Progressed` at network/DownloadTask.kt:60 and
  `Downloading` at network/DownloadEvent.kt:4. The model treats them as one
  variant.
- `CommonApi.getContentLength` returns a `Result` (api/CommonApi.kt:15),
  while network/DownloadTask.kt:46-47 treats it as nullable. The model takes
  the probe as an `Option<nat>`.

## Model

| member | source | states |
|---|---|---|
| Download.RangeHeaderNamesOffset | app/src/main/java/org/fcitx/fcitx5/android/updater/network/DownloadTask.kt:40-41 | the Range header is `bytes=`, the decimal numeral whose value is the start offset, then `-` |
| Download.WriteAt | app/src/main/java/org/fcitx/fcitx5/android/updater/network/DownloadTask.kt:55-58 | a write at a seeked position replaces exactly the bytes it covers, keeps every other byte, and extends the file when it runs past the end |
| Download.WriteAtEnd | app/src/main/java/org/fcitx/fcitx5/android/updater/network/DownloadTask.kt:55-58 | writing at the file's end appends the chunk |
| Download.DownloadTask.constructor | app/src/main/java/org/fcitx/fcitx5/android/updater/network/DownloadTask.kt:29-33 | a new task has no job, is neither created nor finished, has emitted nothing, and holds the bytes already on disk |
| Download.DownloadTask.AssertNotFinished | app/src/main/java/org/fcitx/fcitx5/android/updater/network/DownloadTask.kt:83-86 | throws exactly when `finished`, so never for a valid task |
| Download.DownloadTask.Clear | app/src/main/java/org/fcitx/fcitx5/android/updater/network/DownloadTask.kt:78-81 | drops the job and resets `finished` to false; nothing else changes |
| Download.DownloadTask.CreateJob | app/src/main/java/org/fcitx/fcitx5/android/updater/network/DownloadTask.kt:35-36 | launches a job carrying its notify callback; nothing else changes |
| Download.DownloadTask.Start | app/src/main/java/org/fcitx/fcitx5/android/updater/network/DownloadTask.kt:88-96 | fails with "already created" exactly when the download task is created or has a job; otherwise a job is launched that will announce `Created` and set `created`; the validity invariant is kept |
| Download.DownloadTask.Resume | app/src/main/java/org/fcitx/fcitx5/android/updater/network/DownloadTask.kt:112-119 | fails with "not paused" exactly when the download task is not created or still has a job; otherwise a job is launched that will announce `Resumed` |
| Download.DownloadTask.CancelAndJoin | app/src/main/java/org/fcitx/fcitx5/android/updater/network/DownloadTask.kt:102-104 | cancelling a job blocked in its write loop ends it at the loop head and clears it; a launched job that never ran stays |
| Download.DownloadTask.Pause | app/src/main/java/org/fcitx/fcitx5/android/updater/network/DownloadTask.kt:98-110 | fails with "already paused" exactly when the download task is not created or has no job; otherwise the job is gone and `Paused` is emitted; the file is unchanged either way |
| Download.DownloadTask.Purge | app/src/main/java/org/fcitx/fcitx5/android/updater/network/DownloadTask.kt:121-130 | accepted in every state: afterwards no job, not created, the file deleted (empty) and `Purged` emitted |
| Download.DownloadTask.EnterJob | app/src/main/java/org/fcitx/fcitx5/android/updater/network/DownloadTask.kt:37-73 | the request is for the download task's URL with `bytes=<file length>-`; the announce event is emitted first; then a missing content length gives `Failed`, an offset equal to the length or a body-less response gives `Downloaded`, and a failed connection gives `Failed`, each ending the job; otherwise the job enters the write loop at the file's length with nothing written |
| Download.DownloadTask.Deliver | app/src/main/java/org/fcitx/fcitx5/android/updater/network/DownloadTask.kt:51-73 | the file becomes its old contents followed by the chunks read, in order; the events are those of `DeliverEvents`; the job ends exactly when the stream ends, and otherwise has counted the bytes written |
| Download.DownloadTask.ReadOnce | app/src/main/java/org/fcitx/fcitx5/android/updater/network/DownloadTask.kt:57-73 | one turn of the loop: a chunk is appended to the file, counted by the job and reported as progress; end of stream or a failed read clears the job and emits `Downloaded` or `Failed` |
| Download.StopEvent | app/src/main/java/org/fcitx/fcitx5/android/updater/network/DownloadTask.kt:57-73 | the loop ends with `Downloaded` or `Failed` |
| Download.DeliverProgress | app/src/main/java/org/fcitx/fcitx5/android/updater/network/DownloadTask.kt:59-60 | every progress event has the probed length as denominator and a numerator between the start offset and the final file length, and numerators never decrease |
| Download.DeliverOutcome | app/src/main/java/org/fcitx/fcitx5/android/updater/network/DownloadTask.kt:57-73 | the loop emits one progress event per chunk and, once the stream ends, exactly one final event, which is `Downloaded` at end of stream (whatever length was written) or `Failed` on a read error |
| Download.PauseResume | app/src/main/java/org/fcitx/fcitx5/android/updater/network/DownloadTask.kt:88-119 | pausing before the job announced itself, and pausing twice, are refused; after a pause at byte k the resumed request asks for `bytes=k-`, the file ends equal to the resource, and the events are Created, progress k, Paused, Resumed, progress at full length, Downloaded |
| Download.PausedMidway | app/src/main/java/org/fcitx/fcitx5/android/updater/network/DownloadTask.kt:88-110 | after `start`, a pause before the job announced itself is refused; once `k` bytes are written, a pause leaves the file holding them, no job, and the events Created, progress k, Paused; a second pause is refused |
| Utils.SelectByABI | app/src/main/java/org/fcitx/fcitx5/android/updater/Utils.kt:35-36 | the result is the first artifact that is an `.apk` and names the ABI; there is none exactly when no artifact qualifies |
| Utils.FindComplete | app/src/main/java/org/fcitx/fcitx5/android/updater/Utils.kt:38-49 | the search finds a match whenever the pattern matches at some position |
| Utils.ExtractVersionNameShape | app/src/main/java/org/fcitx/fcitx5/android/updater/Utils.kt:38-49 | a version name that is extracted is `tag-N-ghash` built from the match's groups; tag and hash are non-empty and dash-free; N is the non-negative Int read from the second group |
| Utils.ExtractRejectsNonInteger | app/src/main/java/org/fcitx/fcitx5/android/updater/Utils.kt:41 | a second group that is not an Int yields no version name |
| Utils.ParseVersionNumber | app/src/main/java/org/fcitx/fcitx5/android/updater/Utils.kt:52-59 | succeeds exactly when the split on '-' has three pieces and the middle one is an Int; the result is the first piece, that Int, and the third piece without its first character |
| Utils.ParsedCommitsNonNegative | app/src/main/java/org/fcitx/fcitx5/android/updater/Utils.kt:53-56 | a parsed commit count is never negative |
| Utils.ParseVersionName | app/src/main/java/org/fcitx/fcitx5/android/updater/Utils.kt:52-58 | parsing `tag-N-ghash` for dash-free tag and hash gives back (tag, N, hash) |
| Utils.ExtractThenParse | app/src/main/java/org/fcitx/fcitx5/android/updater/Utils.kt:38-58 | round trip: whatever `extractVersionName` yields parses back into exactly the captured tag, count and hash |
| Utils.ParallelMap | app/src/main/java/org/fcitx/fcitx5/android/updater/Utils.kt:31-33 | same length as the input and, position by position, `f` of the input |
| KotlinText.IntToStringRoundTrip | app/src/main/java/org/fcitx/fcitx5/android/updater/Utils.kt:41-43 | reading back an Int's decimal text gives the Int |
| KotlinText.SplitAtFirstSeparator | app/src/main/java/org/fcitx/fcitx5/android/updater/Utils.kt:53 | splitting `a + c + b` with `a` free of `c` gives `a` followed by the pieces of `b` |
| KotlinText.RemovePrefix | app/src/main/java/org/fcitx/fcitx5/android/updater/model/FDroidVersionViewModel.kt:10 | with the prefix present the prefix followed by the result is the input, otherwise the input is unchanged |
| KotlinText.Replace | app/src/main/java/org/fcitx/fcitx5/android/updater/model/FDroidVersionViewModel.kt:10 | same length; each occurrence of the character replaced, every other character kept |
| VersionUi.InstalledVersion | app/src/main/java/org/fcitx/fcitx5/android/updater/model/VersionUi.kt:20-27 | an `Installed` record built without a flag is installed and carries the given fields |
| VersionUi.NotInstalledIsNoInstallation | app/src/main/java/org/fcitx/fcitx5/android/updater/model/VersionUi.kt:53 | `NotInstalled` has code -1, package and name "N/A", is not installed, and differs from every default-flag installation |
| VersionUi.DisplayNameParts | app/src/main/java/org/fcitx/fcitx5/android/updater/model/VersionUi.kt:49-50 | the display name starts with the package name and a dash, ends with `.apk`, and holds `versionName-abi` in between |
| ViewModel.React | app/src/main/java/org/fcitx/fcitx5/android/updater/model/VersionViewModel.kt:83-132 | only a progress event changes the kept progress; exactly `Failed` shows a toast and no card state; a progress or pause card shows the kept progress |
| ViewModel.TaskEventsKeepCardsOperable | app/src/main/java/org/fcitx/fcitx5/android/updater/model/VersionViewModel.kt:86-132 | no event a task emits puts the card in a state without an action; a progress event shows `Downloading(true, p)`, `Paused` shows `Pausing(true, p)` |
| ViewModel.IndexLastWins | app/src/main/java/org/fcitx/fcitx5/android/updater/model/VersionViewModel.kt:244-247 | entering versions one by one under their names keeps, for each name, the last version of that name |
| ViewModel.IndexUnshadowed | app/src/main/java/org/fcitx/fcitx5/android/updater/model/FDroidVersionViewModel.kt:44-48 | the remote versions entered in the combined map are exactly those whose names have no archive |
| ViewModel.EnterRemotes | app/src/main/java/org/fcitx/fcitx5/android/updater/model/FDroidVersionViewModel.kt:44-48 | the merge loop adds every remote version to the remote map and those without an archive of their name to the combined map |
| ViewModel.EnterLocals | app/src/main/java/org/fcitx/fcitx5/android/updater/model/VersionViewModel.kt:244-247 | the `forEach` of the local refresh: the local map becomes the index of the archives found, and they overwrite their names in the combined map |
| ViewModel.MergeShowsArchivesFirst | app/src/main/java/org/fcitx/fcitx5/android/updater/model/JenkinsVersionViewModel.kt:53-61 | starting from the archives alone, the merge yields the keys local ∪ remote, archives shadowing remote versions |
| ViewModel.DropArchive | app/src/main/java/org/fcitx/fcitx5/android/updater/model/VersionViewModel.kt:163-171 | removing an archive keeps every map keyed by name, keeps installed records out of the combined map, and keeps a merged catalogue merged |
| ViewModel.EnterArchive | app/src/main/java/org/fcitx/fcitx5/android/updater/model/VersionViewModel.kt:103-112 | entering a downloaded archive under its name keeps the maps keyed and a merged catalogue merged |
| ViewModel.Locals | app/src/main/java/org/fcitx/fcitx5/android/updater/model/VersionViewModel.kt:228-243 | the directory scan yields only archive records |
| ViewModel.LocalsComeFromArchives | app/src/main/java/org/fcitx/fcitx5/android/updater/model/VersionViewModel.kt:228-243 | every local record is that of a listed `.apk` file the package reader understood, flagged installed by name |
| ViewModel.ArchivesReachLocals | app/src/main/java/org/fcitx/fcitx5/android/updater/model/VersionViewModel.kt:228-243 | every listed `.apk` with package information yields its local record |
| ViewModel.InstalledFrom | app/src/main/java/org/fcitx/fcitx5/android/updater/model/VersionViewModel.kt:207-214 | installed exactly when both the version information and the size are known, with those values; otherwise `NotInstalled` |
| ViewModel.VersionViewModel.constructor | app/src/main/java/org/fcitx/fcitx5/android/updater/model/VersionViewModel.kt:202-205 | starts valid and merged, with the installed version read and the local and combined maps both the scanned archives |
| ViewModel.VersionViewModel.GetRemoteUiState | app/src/main/java/org/fcitx/fcitx5/android/updater/model/VersionViewModel.kt:69-72 | an existing card state is returned and kept; an absent one is created as `Idle(true)`; nothing else changes |
| ViewModel.VersionViewModel.Download | app/src/main/java/org/fcitx/fcitx5/android/updater/model/VersionViewModel.kt:80-141 | fails exactly when the version has no card state; otherwise a fresh started task for its URL and archive path is filed under it, with progress reset to zero; the card states, version maps, installed record, toasts, deleted files and flags stay |
| ViewModel.VersionViewModel.OnEvent | app/src/main/java/org/fcitx/fcitx5/android/updater/model/VersionViewModel.kt:84-133 | applies the reaction to the card state, progress and toasts; `Downloaded` puts the same archive record under the version name in the local and combined maps; a merged catalogue stays merged; the tasks, installed record, deleted files and flags stay |
| ViewModel.VersionViewModel.FileArchive | app/src/main/java/org/fcitx/fcitx5/android/updater/model/VersionViewModel.kt:101-112 | the archive of the finished download is filed under its version name in the local and the combined map; a merged catalogue stays merged, and the remote map, downloads, installed record, toasts and flags stay |
| ViewModel.VersionViewModel.PauseDownload | app/src/main/java/org/fcitx/fcitx5/android/updater/model/VersionViewModel.kt:143-145 | a no-op without a task; otherwise the download task's pause, refused with `AlreadyPaused` unless it is created and has a job; accepted, it leaves no job and appends `Paused`; the file and `created` stay, and a refusal changes nothing |
| ViewModel.VersionViewModel.ResumeDownload | app/src/main/java/org/fcitx/fcitx5/android/updater/model/VersionViewModel.kt:148-150 | a no-op without a task; otherwise the download task's resume, refused with `NotPaused` unless it is created and has no job; accepted, it launches the `Resumed`-announcing job; the file, `created` and events stay, and a refusal keeps the job |
| ViewModel.VersionViewModel.CancelDownload | app/src/main/java/org/fcitx/fcitx5/android/updater/model/VersionViewModel.kt:152-154 | a no-op without a task; otherwise the download task is purged |
| ViewModel.VersionViewModel.GetRemoteUrl | app/src/main/java/org/fcitx/fcitx5/android/updater/model/VersionViewModel.kt:156-158 | a URL exactly when a remote version of the archive's name exists, and then that version's URL |
| ViewModel.VersionViewModel.Delete | app/src/main/java/org/fcitx/fcitx5/android/updater/model/VersionViewModel.kt:160-172 | deletes the file and the local entry; the combined map falls back to the remote version of that name, whose card turns `Idle(true)`, or drops the name; a merged catalogue stays merged; the tasks, progress, toasts, installed record and flags stay |
| ViewModel.VersionViewModel.FallBack | app/src/main/java/org/fcitx/fcitx5/android/updater/model/VersionViewModel.kt:164-171 | the combined map takes the remote version of the name, whose card (if any) turns `Idle(true)`, or loses the name when no remote version has it; the remote and local maps, tasks, progress, toasts, deleted files, installed record and flags stay as they were |
| ViewModel.VersionViewModel.InstalledChanged | app/src/main/java/org/fcitx/fcitx5/android/updater/model/VersionViewModel.kt:216-218 | true exactly when the installed version name differs from the last recorded one |
| ViewModel.VersionViewModel.RefreshInstalledVersion | app/src/main/java/org/fcitx/fcitx5/android/updater/model/VersionViewModel.kt:221-224 | the installed version is read again and its name recorded, so it no longer counts as changed |
| ViewModel.VersionViewModel.RefreshLocalVersions | app/src/main/java/org/fcitx/fcitx5/android/updater/model/VersionViewModel.kt:226-248 | the local map becomes the scanned archives; they overwrite their names in the combined map, and stale entries there stay |
| ViewModel.VersionViewModel.MergeRemotes | app/src/main/java/org/fcitx/fcitx5/android/updater/model/FDroidVersionViewModel.kt:44-48 | every remote version enters the remote map, and the combined map unless an archive of its name exists |
| ViewModel.VersionViewModel.Rescan | app/src/main/java/org/fcitx/fcitx5/android/updater/model/FDroidVersionViewModel.kt:42-43 | the combined map is emptied and the directory rescanned; both the local and the combined map then hold exactly the archives found, and remote versions, downloads and the installed record stay |
| ViewModel.VersionViewModel.Rebuild | app/src/main/java/org/fcitx/fcitx5/android/updater/model/FDroidVersionViewModel.kt:41-49 | the combined map is emptied, the archives and then the unshadowed remote versions entered, and the refresh flag lowered; merged when the remote map was empty |
| ViewModel.VersionViewModel.Values | app/src/main/java/org/fcitx/fcitx5/android/updater/model/FDroidVersionViewModel.kt:54 | every entry of the combined map once |
| FDroid.PluginName | app/src/main/java/org/fcitx/fcitx5/android/updater/model/FDroidVersionViewModel.kt:10 | the name has no underscore and is the package name's length less the prefix when present |
| FDroid.PluginNameOfPlugin | app/src/main/java/org/fcitx/fcitx5/android/updater/model/FDroidVersionViewModel.kt:10 | a plugin is named by its suffix with underscores turned into dashes; a suffix without underscores is the name |
| FDroid.RemoteOf | app/src/main/java/org/fcitx/fcitx5/android/updater/model/FDroidVersionViewModel.kt:32-39 | a release becomes a remote version with its name and URL, installed exactly when its version code is the installed one |
| FDroid.RemotesAreTheSupported | app/src/main/java/org/fcitx/fcitx5/android/updater/model/FDroidVersionViewModel.kt:29-40 | a release is kept exactly when it lists no ABIs or lists the device's |
| FDroid.WithInstalled | app/src/main/java/org/fcitx/fcitx5/android/updater/model/FDroidVersionViewModel.kt:20-24 | an installed record is kept; any other gets the new flag and nothing else changes |
| FDroid.Reflag | app/src/main/java/org/fcitx/fcitx5/android/updater/model/FDroidVersionViewModel.kt:18-25 | same keys; every non-installed entry flagged exactly when its code is the installed code, otherwise unchanged |
| FDroid.ReflagEach | app/src/main/java/org/fcitx/fcitx5/android/updater/model/FDroidVersionViewModel.kt:18-25 | the loop over the combined map: the result is `Reflag` of the map, each entry re-flagged by its version code once |
| FDroid.FDroidVersionViewModel.constructor | app/src/main/java/org/fcitx/fcitx5/android/updater/model/FDroidVersionViewModel.kt:9-13 | the list is named from the package and starts merged |
| FDroid.FDroidVersionViewModel.Refresh | app/src/main/java/org/fcitx/fcitx5/android/updater/model/FDroidVersionViewModel.kt:14-26 | nothing while a refresh runs; otherwise the installed version and its name are read again, the combined map re-flagged, and the coroutine launched; the downloads, other maps, toasts, deleted files and flags stay either way |
| FDroid.FDroidVersionViewModel.RefreshIfInstalledChanged | app/src/main/java/org/fcitx/fcitx5/android/updater/model/VersionViewModel.kt:216-219 | refreshes, with the full effect of `Refresh`, exactly when the installed name changed and no refresh runs; otherwise nothing changes |
| FDroid.FDroidVersionViewModel.BeginRefresh | app/src/main/java/org/fcitx/fcitx5/android/updater/model/FDroidVersionViewModel.kt:27-28 | the refresh flag is raised and the remote map emptied; the other maps, downloads and installed record stay |
| FDroid.FDroidVersionViewModel.CompleteRefresh | app/src/main/java/org/fcitx/fcitx5/android/updater/model/FDroidVersionViewModel.kt:29-49 | the supported releases become remote versions; the local map becomes the scanned archives; the combined map becomes the archives plus the remote versions with no archive of their name; merged when begun from an empty remote map; the downloads and installed record stay |
| FDroid.FDroidVersionViewModel.SortedVersions | app/src/main/java/org/fcitx/fcitx5/android/updater/model/FDroidVersionViewModel.kt:53-54 | every entry of the combined map once, in non-increasing version code |
| Jenkins.PicksAreTheOffered | app/src/main/java/org/fcitx/fcitx5/android/updater/model/JenkinsVersionViewModel.kt:35-40 | a build contributes exactly when it has an artifact for the ABI whose version name can be extracted |
| Jenkins.PickedNamesParse | app/src/main/java/org/fcitx/fcitx5/android/updater/model/JenkinsVersionViewModel.kt:35-40 | every contributed name is the one extracted from its artifact and is readable by `parseVersionNumber` |
| Jenkins.RemotesOf | app/src/main/java/org/fcitx/fcitx5/android/updater/model/JenkinsVersionViewModel.kt:41-52 | one remote version per pick, in order, with the pick's name and URL, installed exactly when the name is the installed name |
| Jenkins.SemVerOfBuildName | app/src/main/java/org/fcitx/fcitx5/android/updater/model/JenkinsVersionViewModel.kt:66-70 | a build N commits after a release tag X.Y.Z reads as the version X.Y.Z-N |
| Jenkins.LaterBuildsComeFirst | app/src/main/java/org/fcitx/fcitx5/android/updater/model/JenkinsVersionViewModel.kt:66-70 | of two builds after the same tag, the one with fewer commits has lower precedence |
| Jenkins.FirstUnparseable | app/src/main/java/org/fcitx/fcitx5/android/updater/model/JenkinsVersionViewModel.kt:67-69 | finds an entry whose name cannot be read, and finds none exactly when every name can be read |
| Jenkins.JenkinsVersionViewModel.constructor | app/src/main/java/org/fcitx/fcitx5/android/updater/model/JenkinsVersionViewModel.kt:16-19 | the list is named after the job, keeps the initial build numbers and starts merged |
| Jenkins.JenkinsVersionViewModel.Refresh | app/src/main/java/org/fcitx/fcitx5/android/updater/model/JenkinsVersionViewModel.kt:21-25 | nothing while a refresh runs; otherwise the coroutine is launched |
| Jenkins.JenkinsVersionViewModel.RefreshIfInstalledChanged | app/src/main/java/org/fcitx/fcitx5/android/updater/model/VersionViewModel.kt:216-219 | launches a refresh exactly when the installed name changed and no refresh runs; the build numbers stay |
| Jenkins.JenkinsVersionViewModel.BeginRefresh | app/src/main/java/org/fcitx/fcitx5/android/updater/model/JenkinsVersionViewModel.kt:26-34 | raises the flag, empties the remote map, and asks for every build after the first refresh and for the known build numbers before it; the other maps, downloads and installed record stay |
| Jenkins.JenkinsVersionViewModel.RecordBuilds | app/src/main/java/org/fcitx/fcitx5/android/updater/model/JenkinsVersionViewModel.kt:27-34 | after the first refresh the fetched builds' numbers, in order, replace the known ones; the first refresh marks itself done; the maps, downloads, installed record, toasts, deleted files and pending launches stay |
| Jenkins.JenkinsVersionViewModel.CompleteRefresh | app/src/main/java/org/fcitx/fcitx5/android/updater/model/JenkinsVersionViewModel.kt:27-62 | the build bookkeeping; the remote versions of the picks, flagged against the installed version from before the step; the installed version, its recorded name and the local map read again; the combined map becomes the archives plus unshadowed remotes; merged when begun from an empty remote map; the downloads, toasts, deleted files and pending launches stay |
| Jenkins.JenkinsVersionViewModel.SortedVersions | app/src/main/java/org/fcitx/fcitx5/android/updater/model/JenkinsVersionViewModel.kt:66-71 | throws exactly when there are two entries or more and one name cannot be read, naming one such entry; otherwise every entry once, each no newer than the one before it by the precedence of section 11 of Semantic Versioning 2.0.0 |
| Jenkins.SortedByPrecedence | app/src/main/java/org/fcitx/fcitx5/android/updater/model/JenkinsVersionViewModel.kt:66-70 | once every name of a list of two or more is readable, the sorted list has no entry followed by a newer one |
| SemVer.Parse | app/src/main/java/org/fcitx/fcitx5/android/updater/model/JenkinsVersionViewModel.kt:69 | a parsed version has a numeric core and at most one pre-release piece |
| SemVer.FormatParseRoundTrip | app/src/main/java/org/fcitx/fcitx5/android/updater/model/JenkinsVersionViewModel.kt:69 | parsing a formatted version gives it back |
| SemVer.ParseCoreOfFormat | app/src/main/java/org/fcitx/fcitx5/android/updater/model/JenkinsVersionViewModel.kt:69 | the printed major.minor.patch core parses back to the same three numbers and holds no dash |
| SemVer.KeyOrdersByPrecedence | app/src/main/java/org/fcitx/fcitx5/android/updater/model/JenkinsVersionViewModel.kt:66-70 | the sort key is at most another exactly when its version is the same or precedes the other by section 11 of Semantic Versioning 2.0.0 |
| Sorting.LexLeTotal | app/src/main/java/org/fcitx/fcitx5/android/updater/model/FDroidVersionViewModel.kt:54 | any two keys are comparable |
| Sorting.LexLeTransitive | app/src/main/java/org/fcitx/fcitx5/android/updater/model/FDroidVersionViewModel.kt:54 | key order is transitive |
| Sorting.LexLeAntisymmetric | app/src/main/java/org/fcitx/fcitx5/android/updater/model/FDroidVersionViewModel.kt:54 | keys each at most the other are equal |
| Sorting.SortDescending | app/src/main/java/org/fcitx/fcitx5/android/updater/model/FDroidVersionViewModel.kt:54 | `sortedByDescending`: the result is sorted by descending key and a permutation of the input |
| Sorting.SortedKeepsElements | app/src/main/java/org/fcitx/fcitx5/android/updater/model/FDroidVersionViewModel.kt:54 | `sortedByDescending` keeps the length and exactly the elements of its input |

## Left out

- Concurrency: `launch`, `cancelAndJoin`, the download task's lock, SharedFlow and
  StateFlow delivery and the collector coroutines. Each operation is one
  atomic step. The events a task emits are an append-only log, and the model
  hands them to the handler (`OnEvent`) one at a time.
- `pause` cancels and clears the job inside a launched coroutine. The model
  does this synchronously. A job blocked in `read` is cancelled at the loop
  head, and its own later emits are dropped, as they are for a cancelled
  coroutine.
- Download.DownloadTask.Deliver: the response byte stream, the
  `RandomAccessFile` and `fd.sync` are not modelled as objects. The reads
  are an input sequence and the file is a byte sequence. The code also emits
  `Failed` when the file cannot be opened or when `f.write` or `fd.sync`
  throws (network/DownloadTask.kt:55, 58, 63), and a failed write can leave
  part of a chunk on disk; the model has no such path and fails only on a
  failed read.
- The HTTP status is not checked by the code, and the model does not check
  it either.
- Floating point:
  - progress is the exact pair (bytes so far, content length) instead of a
    `Double`/`Float` quotient;
  - sizes are `real`;
  - `bytesToMiB` is modelled as `ViewModel.BytesToMiB`, exact division by
    2^20; its definition is not among the source files of this model.
- Retry, the temporary-to-final rename and the truncation check do not exist
  in the code and are not modelled. An early end of stream is reported as
  `Downloaded`.
- Jenkins.JenkinsRemote: the code calls `VersionUi.Remote` with five
  arguments, and there is no version code among them. The model gives Jenkins
  remote versions version code 0.
- SemVer.Parse: models only the forms used here: a numeric `X.Y.Z` with an
  optional single numeric pre-release identifier. Any other string counts as
  a parse failure. This covers the library's lenient forms, build metadata
  and alphanumeric pre-release identifiers.
- Jenkins.JenkinsVersionViewModel.SortedVersions: which unreadable name the
  exception names depends on the sort's comparison order. The model names
  one unreadable entry.
- FDroid.FDroidVersionViewModel.SortedVersions: the stability of
  `sortedByDescending` is not stated. The sort used is stable, but equal
  keys among map values have no specified order.
- Jenkins.JenkinsVersionViewModel.SortedVersions: the same. The order of
  entries with equal precedence is not stated.
- `toIntOrNull` accepts ASCII digits only. Other Unicode decimal digits,
  which Kotlin also accepts, are not modelled.
- `uninstall`, `install`, `share`, `export` and `exportInstalled` only emit
  file operations for the UI. They are not modelled. Toasts are kept as a
  log of strings.
- `download` called twice for one version leaves the first task's collector
  running. The model keeps one task and one progress per version.
- Overlapping refresh coroutines: a refresh is modelled as `Refresh`, then
  `BeginRefresh`, then `CompleteRefresh`. Interleavings of two coroutines
  are not covered.
- The network calls (`getJobBuilds`, `getJobBuildsByBuildNumbers`,
  `getPackageVersions`, `getContentLength`) and the package manager
  (`getInstalledVersionInfo`, `getInstalledSize`, `getVersionInfo`) are
  parameters. `Const.deviceABI` and `externalDir` are constants passed in.
