/**
 * `WorkspaceMetadata`: the package index built from `cargo metadata`, and the queries
 * that compute the dependencies of a package and their license records.
 */
module Workspace {
  import opened Wrappers
  import opened Strings
  import opened Metadata
  import opened Targets
  import opened Licenses

  /*
   * The static tables.
   */

  /** Packages pulled into the dependency tree for platforms that are never built. */
  const ExcludedPackages: set<string> := {"cloudabi", "fuchsia-cprng", "fuchsia-zircon", "fuchsia-zircon-sys"}

  /** A package managed outside cargo: no id, no manifest, no `source` key, no build targets. */
  function ExtraPackage(name: string, repository: string, license: string, licenseFile: string): (p: Package)
    ensures !IsCargoRecord(p) && p.source == Absent && p.name == name && p.license == Some(license)
  {
    Package(None, name, None, Some(license), Some(licenseFile), Some(repository), Absent, [], None)
  }

  /** The ids of the packages managed outside cargo, in the order they are added. */
  const ExtraPackageIds: seq<string> := ["ext-jna", "ext-protobuf", "ext-swift-protobuf", "ext-openssl", "ext-sqlcipher"]

  const ExtraPackageMetadata: map<string, Package> := map[
    "ext-jna" := ExtraPackage("jna", "https://github.com/java-native-access/jna", "Apache-2.0",
      "https://raw.githubusercontent.com/java-native-access/jna/master/AL2.0"),
    "ext-protobuf" := ExtraPackage("protobuf", "https://github.com/protocolbuffers/protobuf", "BSD-3-Clause",
      "https://raw.githubusercontent.com/protocolbuffers/protobuf/master/LICENSE"),
    "ext-swift-protobuf" := ExtraPackage("swift-protobuf", "https://github.com/apple/swift-protobuf", "Apache-2.0",
      "https://raw.githubusercontent.com/apple/swift-protobuf/master/LICENSE.txt"),
    "ext-openssl" := ExtraPackage("openssl", "https://www.openssl.org/source/", "OpenSSL",
      "https://www.openssl.org/source/license-openssl-ssleay.txt"),
    "ext-sqlcipher" := ExtraPackage("sqlcipher", "https://github.com/sqlcipher/sqlcipher", "BSD-3-Clause",
      "https://raw.githubusercontent.com/sqlcipher/sqlcipher/master/LICENSE")
  ]

  /** Cargo packages known to pull in packages managed outside cargo. */
  const PackagesWithExtraDependencies: map<string, set<string>> := map[
    "openssl-sys" := {"ext-openssl"},
    "ring" := {"ext-openssl"},
    "logins" := {"ext-sqlcipher"}
  ]

  /** One hand-audited tweak: the value cargo must report (`None` for absent), and the replacement, if any. */
  datatype FieldFixup = FieldFixup(field: Field, check: Option<string>, fixup: Option<string>)

  /** Representative entries of the fixup table, by package name, in table order. */
  const PackageMetadataFixups: map<string, seq<FieldFixup>> := map[
    "ring" := [FieldFixup(License, None, Some("ISC"))],
    "adler32" := [
      FieldFixup(License, Some("BSD-3-Clause AND Zlib"), Some("BSD-3-Clause")),
      FieldFixup(LicenseFile, None, Some("LICENSE"))],
    "publicsuffix" := [
      FieldFixup(License, Some("MIT/Apache-2.0"), None),
      FieldFixup(LicenseFile, None, Some("LICENSE-APACHE"))],
    "siphasher" := [
      FieldFixup(License, Some("MIT/Apache-2.0"), None),
      FieldFixup(LicenseFile, None, Some("COPYING"))],
    "failure_derive" := [
      FieldFixup(Repository, Some("https://github.com/withoutboats/failure_derive"), None),
      FieldFixup(LicenseFile, None, Some("https://raw.githubusercontent.com/withoutboats/failure_derive/master/LICENSE-APACHE"))],
    "hawk" := [
      FieldFixup(Repository, Some("https://github.com/taskcluster/rust-hawk"), None),
      FieldFixup(LicenseFile, None, Some("https://raw.githubusercontent.com/taskcluster/rust-hawk/master/LICENSE"))]
  ]

  /** No package's entry tweaks the same field twice (a Python dict has each key once). */
  predicate DistinctFields(fixups: seq<FieldFixup>) {
    forall i, j :: 0 <= i < j < |fixups| ==> fixups[i].field != fixups[j].field
  }

  lemma FixupTableWellFormed()
    ensures WellFormedTable(PackageMetadataFixups)
    ensures forall name :: name in PackageMetadataFixups ==> name !in ExcludedPackages
  {
  }

  /*
   * Fixups.
   */

  /**
   * The inner loop of `__init__`: for each entry in turn, fail unless the field's current
   * value is the recorded one; then overwrite it when a replacement is given.
   */
  function ApplyFixups(p: Package, fixups: seq<FieldFixup>): Result<Package, Error>
    decreases |fixups|
  {
    if fixups == [] then Ok(p)
    else
      var f := fixups[0];
      if Get(p, f.field) != f.check then Err(FixupCheckFailed(p.name, f.field, Get(p, f.field), f.check))
      else ApplyFixups(if f.fixup.Some? then Set(p, f.field, f.fixup.value) else p, fixups[1..])
  }

  /**
   * With each field named once, the fixups succeed exactly when every checked field holds its
   * recorded value; then each replaced field holds its replacement, every other field keeps its
   * value, and id, name, manifest, source and build targets are untouched.
   */
  lemma {:induction false} ApplyFixupsMeaning(p: Package, fixups: seq<FieldFixup>)
    requires DistinctFields(fixups)
    ensures ApplyFixups(p, fixups).Ok? <==> forall k :: 0 <= k < |fixups| ==> Get(p, fixups[k].field) == fixups[k].check
    ensures ApplyFixups(p, fixups).Ok? ==> SameIdentity(p, ApplyFixups(p, fixups).value)
    ensures ApplyFixups(p, fixups).Ok? ==> forall k :: 0 <= k < |fixups| && fixups[k].fixup.Some? ==>
      Get(ApplyFixups(p, fixups).value, fixups[k].field) == fixups[k].fixup
    ensures ApplyFixups(p, fixups).Ok? ==> forall g: Field ::
      (forall k :: 0 <= k < |fixups| && fixups[k].field == g ==> fixups[k].fixup.None?) ==>
      Get(ApplyFixups(p, fixups).value, g) == Get(p, g)
    ensures ApplyFixups(p, fixups).Err? ==>
      (ApplyFixups(p, fixups).error.FixupCheckFailed? && ApplyFixups(p, fixups).error.package == p.name)
    decreases |fixups|
  {
    if fixups != [] {
      var f := fixups[0];
      var q := if f.fixup.Some? then Set(p, f.field, f.fixup.value) else p;
      var rest := fixups[1..];
      assert DistinctFields(rest);
      ApplyFixupsMeaning(q, rest);
      forall k | 0 <= k < |rest| ensures Get(q, rest[k].field) == Get(p, rest[k].field) {
        assert rest[k] == fixups[k + 1];
      }
      if Get(p, f.field) == f.check && ApplyFixups(q, rest).Ok? {
        var r := ApplyFixups(q, rest).value;
        forall k | 0 <= k < |rest| ensures rest[k].field != f.field {
          assert rest[k] == fixups[k + 1];
        }
        assert Get(r, f.field) == Get(q, f.field);
        forall k | 0 <= k < |fixups| && fixups[k].fixup.Some? ensures Get(r, fixups[k].field) == fixups[k].fixup {
          if k > 0 {
            assert fixups[k] == rest[k - 1];
          }
        }
        forall g: Field | forall k :: 0 <= k < |fixups| && fixups[k].field == g ==> fixups[k].fixup.None?
          ensures Get(r, g) == Get(p, g)
        {
          forall k | 0 <= k < |rest| && rest[k].field == g ensures rest[k].fixup.None? {
            assert rest[k] == fixups[k + 1];
          }
        }
      }
    }
  }

  /** The fixups `table` lists for the record; a record with no entry is indexed as cargo reports it. */
  function FixUp(table: map<string, seq<FieldFixup>>, p: Package): Result<Package, Error> {
    if p.name in table then ApplyFixups(p, table[p.name]) else Ok(p)
  }

  /** A fixup table whose entries each tweak a field at most once. */
  ghost predicate WellFormedTable(table: map<string, seq<FieldFixup>>) {
    forall name :: name in table ==> DistinctFields(table[name])
  }

  /** `adler32`'s compound license expression is narrowed, and its license file named. */
  lemma Adler32FixedUp(p: Package)
    requires p.name == "adler32" && p.license == Some("BSD-3-Clause AND Zlib") && p.licenseFile.None?
    ensures FixUp(PackageMetadataFixups, p).Ok?
    ensures FixUp(PackageMetadataFixups, p).value == p.(license := Some("BSD-3-Clause"), licenseFile := Some("LICENSE"))
  {
  }

  /** If cargo's metadata for `ring` ever gains a license, the fixup is refused instead of silently overriding it. */
  lemma RingFixupGuardsUpstreamChange(p: Package, license: string)
    requires p.name == "ring" && p.license == Some(license)
    ensures FixUp(PackageMetadataFixups, p) == Err(FixupCheckFailed("ring", License, Some(license), None))
  {
  }

  /*
   * The index built by `__init__`.
   */

  type Index = map<string, Package>

  /**
   * The static tables: names to skip, the fixups by package name, the packages managed
   * outside cargo with the order in which they are added, and the cargo packages that pull
   * some of those in.
   */
  datatype Tables = Tables(
    excluded: set<string>,
    fixups: map<string, seq<FieldFixup>>,
    extraIds: seq<string>,
    extras: map<string, Package>,
    extraDependencies: map<string, set<string>>)

  const StaticTables := Tables(
    ExcludedPackages, PackageMetadataFixups, ExtraPackageIds, ExtraPackageMetadata, PackagesWithExtraDependencies)

  ghost predicate WellFormedTables(t: Tables) {
    && WellFormedTable(t.fixups)
    && (forall i :: 0 <= i < |t.extraIds| ==> t.extraIds[i] in t.extras)
    && (forall i, j :: 0 <= i < j < |t.extraIds| ==> t.extraIds[i] != t.extraIds[j])
    && (forall id :: id in t.extras ==>
          && id in t.extraIds && t.extras[id].source == Absent && !IsCargoRecord(t.extras[id])
          && t.extras[id].name !in t.excluded)
    && (forall name :: name in t.extraDependencies ==> t.extraDependencies[name] <= t.extras.Keys)
  }

  /** The packages managed outside cargo: one table entry per id, none of them a cargo record. */
  lemma ExtraTablesWellFormed()
    ensures forall i :: 0 <= i < |ExtraPackageIds| ==> ExtraPackageIds[i] in ExtraPackageMetadata
    ensures forall i, j :: 0 <= i < j < |ExtraPackageIds| ==> ExtraPackageIds[i] != ExtraPackageIds[j]
    ensures forall id :: id in ExtraPackageMetadata ==>
      && id in ExtraPackageIds && ExtraPackageMetadata[id].source == Absent && !IsCargoRecord(ExtraPackageMetadata[id])
      && ExtraPackageMetadata[id].name !in ExcludedPackages
    ensures forall name :: name in PackagesWithExtraDependencies ==>
      PackagesWithExtraDependencies[name] <= ExtraPackageMetadata.Keys
    ensures ExtraPackageMetadata.Keys == {"ext-jna", "ext-protobuf", "ext-swift-protobuf", "ext-openssl", "ext-sqlcipher"}
  {
  }

  lemma StaticTablesWellFormed()
    ensures WellFormedTables(StaticTables)
  {
    FixupTableWellFormed();
    ExtraTablesWellFormed();
  }

  /** The indexes of `WorkspaceMetadata`, and the workspace member names in insertion order. */
  datatype Workspace = Workspace(
    metadata: CargoMetadata,
    pkgInfoById: Index,
    pkgInfoByManifestPath: Index,
    workspaceMembersByName: map<string, string>,
    memberNames: seq<string>)

  /** One pass of the package loop: skip an excluded record, else fix it up and index it by id and by manifest path. */
  function IndexPackage(t: Tables, byId: Index, byPath: Index, info: Package): Result<(Index, Index), Error>
    requires IsCargoRecord(info)
  {
    if info.name in t.excluded then Ok((byId, byPath))
    else
      var fixed :- FixUp(t.fixups, info);
      if info.id.value in byId then Err(DuplicatePackageId(info.id.value))
      else if info.manifestPath.value in byPath then Err(DuplicateManifestPath(info.manifestPath.value))
      else Ok((byId[info.id.value := fixed], byPath[info.manifestPath.value := fixed]))
  }

  /** The package loop over `packages`, the first failure ending it. */
  function IndexPackages(t: Tables, packages: seq<Package>): Result<(Index, Index), Error>
    requires forall i :: 0 <= i < |packages| ==> IsCargoRecord(packages[i])
  {
    if packages == [] then Ok((map[], map[]))
    else
      var indexes :- IndexPackages(t, packages[..|packages| - 1]);
      IndexPackage(t, indexes.0, indexes.1, packages[|packages| - 1])
  }

  /** The loop adding the packages managed outside cargo; a clash with an indexed id fails. */
  function AddExtraPackages(extras: map<string, Package>, byId: Index, ids: seq<string>): Result<Index, Error>
    requires forall i :: 0 <= i < |ids| ==> ids[i] in extras
  {
    if ids == [] then Ok(byId)
    else
      var added :- AddExtraPackages(extras, byId, ids[..|ids| - 1]);
      var id := ids[|ids| - 1];
      if id in added then Err(ExtraPackageClash(id)) else Ok(added[id := extras[id]])
  }

  /** The loop over `workspace_members`: each id must be indexed, and each member name must be new. */
  function IndexMembers(byId: Index, members: seq<string>): Result<(map<string, string>, seq<string>), Error> {
    if members == [] then Ok((map[], []))
    else
      var indexed :- IndexMembers(byId, members[..|members| - 1]);
      var id := members[|members| - 1];
      if id !in byId then Err(UnknownPackageId(id))
      else if byId[id].name in indexed.0 then Err(DuplicateWorkspaceMember(byId[id].name))
      else Ok((indexed.0[byId[id].name := id], indexed.1 + [byId[id].name]))
  }

  /** `WorkspaceMetadata(metadata)`, with the tables `t` (`StaticTables` in the tool). */
  function LoadWorkspace(t: Tables, md: CargoMetadata): Result<Workspace, Error>
    requires forall i :: 0 <= i < |md.packages| ==> IsCargoRecord(md.packages[i])
    requires forall i :: 0 <= i < |t.extraIds| ==> t.extraIds[i] in t.extras
  {
    var indexes :- IndexPackages(t, md.packages);
    var byId :- AddExtraPackages(t.extras, indexes.0, t.extraIds);
    var members :- IndexMembers(byId, md.workspaceMembers);
    Ok(Workspace(md, byId, indexes.1, members.0, members.1))
  }

  /** What the indexes of a loaded workspace guarantee to the queries. */
  ghost predicate Valid(t: Tables, ws: Workspace) {
    && (forall id :: id in ws.pkgInfoById ==>
          if id in t.extras then ws.pkgInfoById[id] == t.extras[id]
          else
            && IsCargoRecord(ws.pkgInfoById[id]) && ws.pkgInfoById[id].id == Some(id)
            && ws.pkgInfoById[id].name !in t.excluded
            && ws.pkgInfoById[id].manifestPath.value in ws.pkgInfoByManifestPath
            && ws.pkgInfoByManifestPath[ws.pkgInfoById[id].manifestPath.value] == ws.pkgInfoById[id])
    && t.extras.Keys <= ws.pkgInfoById.Keys
    && (forall path :: path in ws.pkgInfoByManifestPath ==>
          && ws.pkgInfoByManifestPath[path].manifestPath == Some(path)
          && ws.pkgInfoByManifestPath[path].id.Some?
          && ws.pkgInfoByManifestPath[path].id.value in ws.pkgInfoById
          && ws.pkgInfoByManifestPath[path].id.value !in t.extras
          && ws.pkgInfoById[ws.pkgInfoByManifestPath[path].id.value] == ws.pkgInfoByManifestPath[path])
    && (forall name :: name in ws.workspaceMembersByName ==>
          ws.workspaceMembersByName[name] in ws.pkgInfoById
          && ws.pkgInfoById[ws.workspaceMembersByName[name]].name == name)
    && (forall name :: name in ws.workspaceMembersByName <==> name in ws.memberNames)
  }

  /*
   * What the index holds.
   */

  lemma FixUpKeepsIdentity(table: map<string, seq<FieldFixup>>, p: Package)
    requires WellFormedTable(table)
    ensures FixUp(table, p).Ok? ==> SameIdentity(p, FixUp(table, p).value)
  {
    if p.name in table {
      ApplyFixupsMeaning(p, table[p.name]);
    }
  }

  /** Both indexes hold only fixed-up, non-excluded cargo records, each under its own id and its own manifest path. */
  ghost predicate IndexesAgree(t: Tables, byId: Index, byPath: Index) {
    IdIndexAgrees(t, byId, byPath) && PathIndexAgrees(byId, byPath)
  }

  ghost predicate IdIndexAgrees(t: Tables, byId: Index, byPath: Index) {
    forall id :: id in byId ==>
      && IsCargoRecord(byId[id]) && byId[id].id == Some(id) && byId[id].name !in t.excluded
      && byId[id].manifestPath.value in byPath && byPath[byId[id].manifestPath.value] == byId[id]
  }

  ghost predicate PathIndexAgrees(byId: Index, byPath: Index) {
    forall path :: path in byPath ==>
      && byPath[path].manifestPath == Some(path) && byPath[path].id.Some?
      && byPath[path].id.value in byId && byId[byPath[path].id.value] == byPath[path]
  }

  /** One pass of the package loop keeps the indexes in agreement. */
  lemma IndexPackageAgrees(t: Tables, byId: Index, byPath: Index, info: Package)
    requires WellFormedTable(t.fixups)
    requires IsCargoRecord(info) && IndexesAgree(t, byId, byPath)
    ensures IndexPackage(t, byId, byPath, info).Ok? ==>
      IndexesAgree(t, IndexPackage(t, byId, byPath, info).value.0, IndexPackage(t, byId, byPath, info).value.1)
  {
    if info.name !in t.excluded && IndexPackage(t, byId, byPath, info).Ok? {
      FixUpKeepsIdentity(t.fixups, info);
      var fixed := FixUp(t.fixups, info).value;
      IdIndexStep(t, byId, byPath, info, fixed);
      PathIndexStep(t, byId, byPath, info, fixed);
    }
  }

  lemma IdIndexStep(t: Tables, byId: Index, byPath: Index, info: Package, fixed: Package)
    requires IsCargoRecord(info) && info.name !in t.excluded && SameIdentity(info, fixed)
    requires info.id.value !in byId && info.manifestPath.value !in byPath
    requires IndexesAgree(t, byId, byPath)
    ensures IdIndexAgrees(t, byId[info.id.value := fixed], byPath[info.manifestPath.value := fixed])
  {
    var path := info.manifestPath.value;
    assert forall k :: k in byId ==> byId[k].manifestPath.value != path;
  }

  lemma PathIndexStep(t: Tables, byId: Index, byPath: Index, info: Package, fixed: Package)
    requires IsCargoRecord(info) && SameIdentity(info, fixed)
    requires info.id.value !in byId && info.manifestPath.value !in byPath
    requires IndexesAgree(t, byId, byPath)
    ensures PathIndexAgrees(byId[info.id.value := fixed], byPath[info.manifestPath.value := fixed])
  {
  }

  /** One pass of the package loop keeps what was indexed and adds only the record at hand, fixed up. */
  lemma IndexPackageExtends(t: Tables, byId: Index, byPath: Index, info: Package)
    requires IsCargoRecord(info)
    ensures var r := IndexPackage(t, byId, byPath, info);
      && (r.Ok? ==> forall id :: id in byId ==> id in r.value.0 && r.value.0[id] == byId[id])
      && (r.Ok? ==> forall id :: id in r.value.0 ==> id in byId || (id == info.id.value && info.name !in t.excluded))
      && (r.Ok? && info.name !in t.excluded ==> info.id.value in r.value.0 && FixUp(t.fixups, info) == Ok(r.value.0[info.id.value]))
  {
  }

  /** A successful package loop leaves the two indexes in agreement. */
  lemma {:induction false} IndexPackagesAgree(t: Tables, packages: seq<Package>)
    requires WellFormedTable(t.fixups)
    requires forall i :: 0 <= i < |packages| ==> IsCargoRecord(packages[i])
    ensures IndexPackages(t, packages).Ok? ==>
      IndexesAgree(t, IndexPackages(t, packages).value.0, IndexPackages(t, packages).value.1)
  {
    if packages != [] {
      var prefix := packages[..|packages| - 1];
      IndexPackagesAgree(t, prefix);
      if IndexPackages(t, prefix).Ok? {
        var before := IndexPackages(t, prefix).value;
        IndexPackageAgrees(t, before.0, before.1, packages[|packages| - 1]);
      }
    }
  }

  /** A successful package loop indexes every record whose name is not excluded, fixed up, under its id. */
  lemma {:induction false} IndexPackagesCovers(t: Tables, packages: seq<Package>)
    requires WellFormedTable(t.fixups)
    requires forall i :: 0 <= i < |packages| ==> IsCargoRecord(packages[i])
    ensures var r := IndexPackages(t, packages);
      r.Ok? ==> forall i :: 0 <= i < |packages| && packages[i].name !in t.excluded ==>
        packages[i].id.value in r.value.0 && FixUp(t.fixups, packages[i]) == Ok(r.value.0[packages[i].id.value])
  {
    if packages != [] {
      var prefix := packages[..|packages| - 1];
      IndexPackagesCovers(t, prefix);
      if IndexPackages(t, packages).Ok? {
        var before := IndexPackages(t, prefix).value;
        var after := IndexPackages(t, packages).value;
        IndexPackageExtends(t, before.0, before.1, packages[|packages| - 1]);
        forall i | 0 <= i < |packages| && packages[i].name !in t.excluded
          ensures packages[i].id.value in after.0 && FixUp(t.fixups, packages[i]) == Ok(after.0[packages[i].id.value])
        {
          if i < |prefix| {
            assert packages[i] == prefix[i];
          }
        }
      }
    }
  }

  /** A successful package loop indexes nothing but the records whose name is not excluded. */
  lemma {:induction false} IndexPackagesOnly(t: Tables, packages: seq<Package>)
    requires WellFormedTable(t.fixups)
    requires forall i :: 0 <= i < |packages| ==> IsCargoRecord(packages[i])
    ensures var r := IndexPackages(t, packages);
      r.Ok? ==> forall id :: id in r.value.0 ==>
        exists i :: 0 <= i < |packages| && packages[i].id == Some(id) && packages[i].name !in t.excluded
  {
    if packages != [] {
      var prefix := packages[..|packages| - 1];
      IndexPackagesOnly(t, prefix);
      if IndexPackages(t, packages).Ok? {
        var before := IndexPackages(t, prefix).value;
        var after := IndexPackages(t, packages).value;
        IndexPackageExtends(t, before.0, before.1, packages[|packages| - 1]);
        forall id | id in after.0
          ensures exists i :: 0 <= i < |packages| && packages[i].id == Some(id) && packages[i].name !in t.excluded
        {
          if id in before.0 {
            var i :| 0 <= i < |prefix| && prefix[i].id == Some(id) && prefix[i].name !in t.excluded;
            assert packages[i] == prefix[i];
          } else {
            assert packages[|packages| - 1].id == Some(id);
          }
        }
      }
    }
  }

  /** Once the package loop has failed, later records do not matter: the first failure is reported. */
  lemma {:induction false} IndexPackagesFailureSticks(t: Tables, packages: seq<Package>, n: nat)
    requires forall i :: 0 <= i < |packages| ==> IsCargoRecord(packages[i])
    requires n <= |packages| && IndexPackages(t, packages[..n]).Err?
    ensures IndexPackages(t, packages) == IndexPackages(t, packages[..n])
    decreases |packages| - n
  {
    if n < |packages| {
      var longer := packages[..n + 1];
      assert longer[..n] == packages[..n];
      assert IndexPackages(t, longer) == IndexPackages(t, packages[..n]);
      IndexPackagesFailureSticks(t, packages, n + 1);
    } else {
      assert packages[..n] == packages;
    }
  }

  /**
   * The package loop fails when a record that is not excluded fails its fixup check, and
   * when two such records share an id or a manifest path.
   */
  lemma IndexPackagesRejects(t: Tables, packages: seq<Package>, i: nat, j: nat)
    requires WellFormedTable(t.fixups)
    requires forall k :: 0 <= k < |packages| ==> IsCargoRecord(packages[k])
    requires i < j < |packages| && packages[i].name !in t.excluded && packages[j].name !in t.excluded
    requires FixUp(t.fixups, packages[i]).Err? || FixUp(t.fixups, packages[j]).Err?
      || packages[i].id == packages[j].id || packages[i].manifestPath == packages[j].manifestPath
    ensures IndexPackages(t, packages).Err?
  {
    var prefix := packages[..j];
    var upto := packages[..j + 1];
    assert upto[..j] == prefix;
    assert upto[j] == packages[j];
    assert prefix[i] == packages[i];
    IndexPackagesAgree(t, prefix);
    IndexPackagesCovers(t, prefix);
    if IndexPackages(t, prefix).Ok? {
      var before := IndexPackages(t, prefix).value;
      if FixUp(t.fixups, packages[i]).Ok? && FixUp(t.fixups, packages[j]).Ok? {
        var p := before.0[packages[i].id.value];
        FixUpKeepsIdentity(t.fixups, packages[i]);
        assert p.manifestPath == packages[i].manifestPath;
        assert packages[j].id.value in before.0 || packages[j].manifestPath.value in before.1;
      }
      assert IndexPackage(t, before.0, before.1, packages[j]).Err?;
    }
    assert IndexPackages(t, upto).Err?;
    IndexPackagesFailureSticks(t, packages, j + 1);
  }

  /** Once the extras loop has failed, later ids do not matter. */
  lemma {:induction false} AddExtrasFailureSticks(extras: map<string, Package>, byId: Index, ids: seq<string>, n: nat)
    requires forall i :: 0 <= i < |ids| ==> ids[i] in extras
    requires n <= |ids| && AddExtraPackages(extras, byId, ids[..n]).Err?
    ensures AddExtraPackages(extras, byId, ids) == AddExtraPackages(extras, byId, ids[..n])
    decreases |ids| - n
  {
    if n < |ids| {
      var longer := ids[..n + 1];
      assert longer[..n] == ids[..n];
      assert AddExtraPackages(extras, byId, longer) == AddExtraPackages(extras, byId, ids[..n]);
      AddExtrasFailureSticks(extras, byId, ids, n + 1);
    } else {
      assert ids[..n] == ids;
    }
  }

  /** Once the member loop has failed, later members do not matter. */
  lemma {:induction false} IndexMembersFailureSticks(byId: Index, members: seq<string>, n: nat)
    requires n <= |members| && IndexMembers(byId, members[..n]).Err?
    ensures IndexMembers(byId, members) == IndexMembers(byId, members[..n])
    decreases |members| - n
  {
    if n < |members| {
      var longer := members[..n + 1];
      assert longer[..n] == members[..n];
      assert IndexMembers(byId, longer) == IndexMembers(byId, members[..n]);
      IndexMembersFailureSticks(byId, members, n + 1);
    } else {
      assert members[..n] == members;
    }
  }

  /**
   * Adding distinct extras succeeds exactly when none of their ids is already indexed,
   * and then adds each of them and changes nothing else.
   */
  lemma {:induction false} AddExtraPackagesMeaning(extras: map<string, Package>, byId: Index, ids: seq<string>)
    requires forall i :: 0 <= i < |ids| ==> ids[i] in extras
    requires forall i, j :: 0 <= i < j < |ids| ==> ids[i] != ids[j]
    ensures var r := AddExtraPackages(extras, byId, ids);
      && (r.Ok? <==> forall i :: 0 <= i < |ids| ==> ids[i] !in byId)
      && (r.Ok? ==> forall id :: id in r.value <==> id in byId || id in ids)
      && (r.Ok? ==> forall id :: id in byId ==> r.value[id] == byId[id])
      && (r.Ok? ==> forall i :: 0 <= i < |ids| ==> r.value[ids[i]] == extras[ids[i]])
  {
    if ids != [] {
      var prefix := ids[..|ids| - 1];
      var last := ids[|ids| - 1];
      assert ids == prefix + [last];
      assert forall i :: 0 <= i < |prefix| ==> prefix[i] == ids[i];
      assert last !in prefix;
      AddExtraPackagesMeaning(extras, byId, prefix);
      if AddExtraPackages(extras, byId, prefix).Ok? {
        var added := AddExtraPackages(extras, byId, prefix).value;
        assert last in added <==> last in byId;
      }
    }
  }

  /** Every member id is indexed and no two members share a package name. */
  ghost predicate MembersResolvable(byId: Index, members: seq<string>) {
    && (forall i :: 0 <= i < |members| ==> members[i] in byId)
    && (forall i, j :: 0 <= i < j < |members| ==> byId[members[i]].name != byId[members[j]].name)
  }

  /** The name map and name list the member loop builds, for these members. */
  ghost predicate MemberIndexOf(byId: Index, members: seq<string>, byName: map<string, string>, names: seq<string>)
    requires forall i :: 0 <= i < |members| ==> members[i] in byId
  {
    && (forall i :: 0 <= i < |members| ==> byId[members[i]].name in byName && byName[byId[members[i]].name] == members[i])
    && (forall name :: name in byName ==> byName[name] in members && byName[name] in byId && byId[byName[name]].name == name)
    && (forall name :: name in byName <==> name in names)
  }

  /** What the member loop builds: the index for its members, as far as it has gone. */
  lemma {:induction false} IndexMembersContent(byId: Index, members: seq<string>)
    requires IndexMembers(byId, members).Ok?
    ensures forall i :: 0 <= i < |members| ==> members[i] in byId
    ensures MemberIndexOf(byId, members, IndexMembers(byId, members).value.0, IndexMembers(byId, members).value.1)
  {
    if members != [] {
      var prefix := members[..|members| - 1];
      var last := members[|members| - 1];
      IndexMembersContent(byId, prefix);
      var indexed := IndexMembers(byId, prefix).value;
      MemberIndexStep(byId, prefix, last, indexed.0, indexed.1);
      assert members == prefix + [last];
    }
  }

  /** One pass of the member loop extends the index by the new member. */
  lemma MemberIndexStep(byId: Index, prefix: seq<string>, last: string, byName: map<string, string>, names: seq<string>)
    requires forall i :: 0 <= i < |prefix| ==> prefix[i] in byId
    requires MemberIndexOf(byId, prefix, byName, names)
    requires last in byId && byId[last].name !in byName
    ensures forall i :: 0 <= i < |prefix + [last]| ==> (prefix + [last])[i] in byId
    ensures MemberIndexOf(byId, prefix + [last], byName[byId[last].name := last], names + [byId[last].name])
  {
    var members := prefix + [last];
    var name := byId[last].name;
    forall i | 0 <= i < |members| ensures byId[members[i]].name in byName[name := last] && byName[name := last][byId[members[i]].name] == members[i]
    {
      if i < |prefix| {
        assert members[i] == prefix[i];
      }
    }
  }

  /**
   * The member loop succeeds exactly when every member id is indexed and no two members
   * share a name.
   */
  lemma {:induction false} IndexMembersSucceeds(byId: Index, members: seq<string>)
    ensures IndexMembers(byId, members).Ok? <==> MembersResolvable(byId, members)
  {
    if members != [] {
      var prefix := members[..|members| - 1];
      var last := members[|members| - 1];
      IndexMembersSucceeds(byId, prefix);
      assert members == prefix + [last];
      assert forall i :: 0 <= i < |prefix| ==> prefix[i] == members[i];
      if IndexMembers(byId, prefix).Ok? && last in byId {
        IndexMembersContent(byId, prefix);
        var indexed := IndexMembers(byId, prefix).value;
        var name := byId[last].name;
        if name in indexed.0 {
          var k :| 0 <= k < |prefix| && prefix[k] == indexed.0[name];
          assert byId[members[k]].name == byId[members[|members| - 1]].name;
        }
      }
    }
  }

  /**
   * A loaded workspace is valid: its id index holds the extras and the fixed-up cargo records,
   * its manifest index agrees with it, and its member map names indexed packages.
   */
  lemma LoadWorkspaceValid(t: Tables, md: CargoMetadata)
    requires WellFormedTables(t)
    requires forall i :: 0 <= i < |md.packages| ==> IsCargoRecord(md.packages[i])
    ensures LoadWorkspace(t, md).Ok? ==> Valid(t, LoadWorkspace(t, md).value)
  {
    IndexPackagesAgree(t, md.packages);
    IndexPackagesCovers(t, md.packages);
    IndexPackagesOnly(t, md.packages);
    if LoadWorkspace(t, md).Ok? {
      var indexes := IndexPackages(t, md.packages).value;
      AddExtraPackagesMeaning(t.extras, indexes.0, t.extraIds);
      var byId := AddExtraPackages(t.extras, indexes.0, t.extraIds).value;
      IndexMembersContent(byId, md.workspaceMembers);
      forall id | id in t.extras ensures id !in indexes.0 {
        var k :| 0 <= k < |t.extraIds| && t.extraIds[k] == id;
      }
    }
  }

  /** The inner loop of `__init__`: check, then overwrite, each field the record's entry names. */
  method ApplyFixupsInPlace(original: Package, fixups: seq<FieldFixup>) returns (r: Result<Package, Error>)
    ensures r == ApplyFixups(original, fixups)
  {
    var info := original;
    var j := 0;
    while j < |fixups|
      invariant j <= |fixups|
      invariant ApplyFixups(original, fixups) == ApplyFixups(info, fixups[j..])
    {
      var f := fixups[j];
      assert fixups[j..][1..] == fixups[j + 1..];
      if Get(info, f.field) != f.check {
        return Err(FixupCheckFailed(info.name, f.field, Get(info, f.field), f.check));
      }
      if f.fixup.Some? {
        info := Set(info, f.field, f.fixup.value);
      }
      j := j + 1;
    }
    return Ok(info);
  }

  /** The package loop of `__init__`. */
  method IndexCargoPackages(t: Tables, packages: seq<Package>) returns (r: Result<(Index, Index), Error>)
    requires forall i :: 0 <= i < |packages| ==> IsCargoRecord(packages[i])
    ensures r == IndexPackages(t, packages)
  {
    var byId: Index := map[];
    var byPath: Index := map[];
    var i := 0;
    while i < |packages|
      invariant i <= |packages|
      invariant IndexPackages(t, packages[..i]) == Ok((byId, byPath))
    {
      var original := packages[i];
      assert packages[..i + 1][..i] == packages[..i];
      if original.name !in t.excluded {
        var fixed := Ok(original);
        if original.name in t.fixups {
          fixed := ApplyFixupsInPlace(original, t.fixups[original.name]);
        }
        if fixed.Err? {
          IndexPackagesFailureSticks(t, packages, i + 1);
          return Err(fixed.error);
        }
        if original.id.value in byId {
          IndexPackagesFailureSticks(t, packages, i + 1);
          return Err(DuplicatePackageId(original.id.value));
        }
        byId := byId[original.id.value := fixed.value];
        if original.manifestPath.value in byPath {
          IndexPackagesFailureSticks(t, packages, i + 1);
          return Err(DuplicateManifestPath(original.manifestPath.value));
        }
        byPath := byPath[original.manifestPath.value := fixed.value];
      }
      i := i + 1;
    }
    assert packages[..i] == packages;
    return Ok((byId, byPath));
  }

  /** The loop of `__init__` adding the packages managed outside cargo. */
  method AddExtras(extras: map<string, Package>, byId: Index, ids: seq<string>) returns (r: Result<Index, Error>)
    requires forall i :: 0 <= i < |ids| ==> ids[i] in extras
    ensures r == AddExtraPackages(extras, byId, ids)
  {
    var index := byId;
    var k := 0;
    while k < |ids|
      invariant k <= |ids|
      invariant AddExtraPackages(extras, byId, ids[..k]) == Ok(index)
    {
      var id := ids[k];
      assert ids[..k + 1][..k] == ids[..k];
      if id in index {
        AddExtrasFailureSticks(extras, byId, ids, k + 1);
        return Err(ExtraPackageClash(id));
      }
      index := index[id := extras[id]];
      k := k + 1;
    }
    assert ids[..k] == ids;
    return Ok(index);
  }

  /** The loop of `__init__` over the workspace members. */
  method IndexWorkspaceMembers(byId: Index, members: seq<string>) returns (r: Result<(map<string, string>, seq<string>), Error>)
    ensures r == IndexMembers(byId, members)
  {
    var byName: map<string, string> := map[];
    var names: seq<string> := [];
    var m := 0;
    while m < |members|
      invariant m <= |members|
      invariant IndexMembers(byId, members[..m]) == Ok((byName, names))
    {
      var id := members[m];
      assert members[..m + 1][..m] == members[..m];
      if id !in byId {
        IndexMembersFailureSticks(byId, members, m + 1);
        return Err(UnknownPackageId(id));
      }
      var name := byId[id].name;
      if name in byName {
        IndexMembersFailureSticks(byId, members, m + 1);
        return Err(DuplicateWorkspaceMember(name));
      }
      byName := byName[name := id];
      names := names + [name];
      m := m + 1;
    }
    assert members[..m] == members;
    return Ok((byName, names));
  }

  /**
   * `WorkspaceMetadata.__init__`: index each cargo record that is not excluded, after checking
   * and applying its fixups; add the packages managed outside cargo; then map each workspace
   * member's name to its id. The first failed assertion ends the load.
   */
  method Load(t: Tables, md: CargoMetadata) returns (r: Result<Workspace, Error>)
    requires forall i :: 0 <= i < |md.packages| ==> IsCargoRecord(md.packages[i])
    requires forall i :: 0 <= i < |t.extraIds| ==> t.extraIds[i] in t.extras
    ensures r == LoadWorkspace(t, md)
  {
    var indexes := IndexCargoPackages(t, md.packages);
    if indexes.Err? {
      return Err(indexes.error);
    }
    var byId := AddExtras(t.extras, indexes.value.0, t.extraIds);
    if byId.Err? {
      return Err(byId.error);
    }
    var members := IndexWorkspaceMembers(byId.value, md.workspaceMembers);
    if members.Err? {
      return Err(members.error);
    }
    return Ok(Workspace(md, byId.value, indexes.value.1, members.value.0, members.value.1));
  }
}
