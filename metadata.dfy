/**
 * The records the tool works on: cargo's package metadata (as `cargo metadata`
 * reports it, after fixups), the license record produced per dependency, and the
 * reasons a run aborts.
 */
module Metadata {
  import opened Wrappers

  /** The package-metadata keys that the fixup table checks and overwrites. */
  datatype Field = License | LicenseFile | Repository

  /**
   * Cargo's `source` key: absent (the packages synthesised for dependencies managed
   * outside cargo), present but null (a path dependency), or a registry or git source.
   */
  datatype Source = Absent | Null | Remote(location: string)

  /** One entry of a package's `targets` list; `kind` lists the crate types it builds. */
  datatype BuildTarget = BuildTarget(name: string, kind: seq<string>)

  /**
   * A package record. An `Option` field is `None` when the key is absent or null;
   * the synthesised packages have no `id`, no `manifest_path` and no build targets.
   */
  datatype Package = Package(
    id: Option<string>,
    name: string,
    manifestPath: Option<string>,
    license: Option<string>,
    licenseFile: Option<string>,
    repository: Option<string>,
    source: Source,
    targets: seq<BuildTarget>,
    licenseText: Option<string>)

  /** A record as `cargo metadata` emits it: `id`, `manifest_path` and `source` are always present. */
  predicate IsCargoRecord(p: Package) {
    p.id.Some? && p.manifestPath.Some? && p.source != Absent
  }

  /** The output of `cargo metadata`, reduced to what the tool reads. */
  datatype CargoMetadata = CargoMetadata(
    packages: seq<Package>,
    workspaceMembers: seq<string>,
    workspaceRoot: string)

  /** `info.get(key, None)` for a fixup key. */
  function Get(p: Package, f: Field): Option<string> {
    match f
    case License => p.license
    case LicenseFile => p.licenseFile
    case Repository => p.repository
  }

  /** The parts of a record that no fixup can touch. */
  predicate SameIdentity(p: Package, q: Package) {
    && p.id == q.id && p.name == q.name && p.manifestPath == q.manifestPath
    && p.source == q.source && p.targets == q.targets && p.licenseText == q.licenseText
  }

  /** `info[key] = value`: the field reads back as the value, and nothing else changes. */
  function Set(p: Package, f: Field, v: string): (q: Package)
    ensures Get(q, f) == Some(v)
    ensures forall g :: g != f ==> Get(q, g) == Get(p, g)
    ensures SameIdentity(p, q)
  {
    match f
    case License => p.(license := Some(v))
    case LicenseFile => p.(licenseFile := Some(v))
    case Repository => p.(repository := Some(v))
  }

  /** The record `get_license_info` produces for one dependency. */
  datatype LicenseInfo = LicenseInfo(
    name: string,
    repository: Option<string>,
    license: string,
    text: string)

  /** Why a run aborts; every failure of the tool is fatal. */
  datatype Error =
    | FixupCheckFailed(package: string, field: Field, found: Option<string>, expected: Option<string>)
    | DuplicatePackageId(id: string)
    | DuplicateManifestPath(path: string)
    | ExtraPackageClash(id: string)
    | UnknownPackageId(id: string)
    | DuplicateWorkspaceMember(name: string)
    | UnknownWorkspaceMember(name: string)
    | BuildPlanFailed(package: string, target: string)
    | UnknownManifestPath(path: string)
    | UnnecessaryFixups(names: set<string>)
    | MissingLicense(id: string)
    | NoAcceptableLicense(id: string, license: string)
    | FetchFailed(url: string)
    | MissingManifestPath(name: string)
    | FileUnreadable(path: string)
    | DirectoryUnreadable(path: string)
    | AmbiguousLicenseFiles(name: string, candidates: seq<string>)
    | LicenseFileNotFound(name: string, repository: Option<string>)
    | NoApacheTemplate
    | FenceInLicenseText(key: string)
}
