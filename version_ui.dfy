/** The version records shown by the updater (model/VersionUi.kt): a version
    installed on the device, one available remotely, or a downloaded archive.
    All three share versionCode, pkgName, versionName, size and isInstalled.
    Sizes are MiB values carried through unchanged. */
module VersionUi {
  import opened Wrappers

  datatype VersionUi =
    | Installed(versionCode: int, pkgName: string, versionName: string, size: real, isInstalled: bool)
    | Remote(pkgName: string, versionCode: int, versionName: string, size: real, isInstalled: bool,
             downloadUrl: string)
    | Local(versionCode: int, pkgName: string, versionName: string, size: real, isInstalled: bool,
            archiveFile: string)

  type RemoteVersion = v: VersionUi | v.Remote? witness Remote("", 0, "", 0.0, false, "")

  type LocalVersion = v: VersionUi | v.Local? witness Local(0, "", "", 0.0, false, "")

  /** `Installed(...)` with `isInstalled` left at its default. */
  function InstalledVersion(versionCode: int, pkgName: string, versionName: string, size: real): (v: VersionUi)
    ensures v.Installed? && v.isInstalled
    ensures v.versionCode == versionCode && v.pkgName == pkgName && v.versionName == versionName && v.size == size
  {
    Installed(versionCode, pkgName, versionName, size, true)
  }

  /** The placeholder for a package that is not installed. */
  const NotInstalled: VersionUi := Installed(-1, "N/A", "N/A", 0.0, false)

  /** `NotInstalled` is told apart from every real installation by its flag. */
  lemma NotInstalledIsNoInstallation(versionCode: int, pkgName: string, versionName: string, size: real)
    ensures NotInstalled.Installed? && !NotInstalled.isInstalled
    ensures NotInstalled.versionCode == -1 && NotInstalled.pkgName == "N/A" && NotInstalled.versionName == "N/A"
    ensures InstalledVersion(versionCode, pkgName, versionName, size) != NotInstalled
  {
  }

  /** `displayName`: `"$pkgName-$versionName-$abi.apk"`, for the device ABI `abi`. */
  function DisplayName(v: VersionUi, abi: string): (r: string)
    ensures |r| == |v.pkgName| + |v.versionName| + |abi| + 6
  {
    v.pkgName + "-" + v.versionName + "-" + abi + ".apk"
  }

  /** A display name starts with the package name and a dash, carries the version
      name and ABI in between, and ends with `.apk`. */
  lemma DisplayNameParts(v: VersionUi, abi: string)
    ensures var r := DisplayName(v, abi);
      && v.pkgName + "-" <= r
      && r[|r| - 4..] == ".apk"
      && r[|v.pkgName| + 1..|r| - 4] == v.versionName + "-" + abi
  {
    var r := DisplayName(v, abi);
    assert r == (v.pkgName + "-") + (v.versionName + "-" + abi) + ".apk";
  }
}
