/**
 * The queries of `WorkspaceMetadata`: the targets a package can be built for, the
 * dependencies its build plans list plus those managed outside cargo, which of them are
 * external, and the license record of each external dependency of the workspace.
 */
module Dependencies {
  import opened Wrappers
  import opened Strings
  import opened Metadata
  import opened Targets
  import opened Licenses
  import opened Workspace
  import opened Sorting

  /*
   * Compatible targets.
   */

  predicate BuildsCdylib(bt: BuildTarget) {
    "cdylib" in bt.kind
  }

  /** Some build target of the package is a cdylib. */
  predicate HasCdylib(buildTargets: seq<BuildTarget>) {
    exists k :: 0 <= k < |buildTargets| && BuildsCdylib(buildTargets[k])
  }

  /** The record of the workspace member called `name`. */
  function MemberPackage(ws: Workspace, name: string): (r: Result<Package, Error>)
    ensures r.Ok? <==> name in ws.workspaceMembersByName && ws.workspaceMembersByName[name] in ws.pkgInfoById
    ensures r.Ok? ==> r.value == ws.pkgInfoById[ws.workspaceMembersByName[name]]
    ensures name !in ws.workspaceMembersByName ==> r == Err(UnknownWorkspaceMember(name))
  {
    if name !in ws.workspaceMembersByName then Err(UnknownWorkspaceMember(name))
    else
      var id := ws.workspaceMembersByName[name];
      if id !in ws.pkgInfoById then Err(UnknownPackageId(id)) else Ok(ws.pkgInfoById[id])
  }

  /** The filtering loop of `get_compatible_targets_for_package`, over its first build targets. */
  function FilterForBuildTargets(buildTargets: seq<BuildTarget>, targets: seq<string>): seq<string> {
    if buildTargets == [] then targets
    else
      var filtered := FilterForBuildTargets(buildTargets[..|buildTargets| - 1], targets);
      if BuildsCdylib(buildTargets[|buildTargets| - 1]) then WithoutIos(filtered) else filtered
  }

  lemma IsSubsequenceOfItself(a: seq<string>)
    ensures IsSubsequence(a, a)
  {
  }

  /**
   * Filtering once per cdylib is filtering once: the iOS targets are dropped when some
   * build target is a cdylib, and the requested list is kept as it is otherwise.
   */
  lemma {:induction false} FilterOncePerCdylib(buildTargets: seq<BuildTarget>, targets: seq<string>)
    ensures FilterForBuildTargets(buildTargets, targets) ==
      if HasCdylib(buildTargets) then WithoutIos(targets) else targets
  {
    if buildTargets != [] {
      var prefix := buildTargets[..|buildTargets| - 1];
      var last := buildTargets[|buildTargets| - 1];
      FilterOncePerCdylib(prefix, targets);
      WithoutIosIdempotent(targets);
      if HasCdylib(buildTargets) && !BuildsCdylib(last) {
        var k :| 0 <= k < |buildTargets| && BuildsCdylib(buildTargets[k]);
        assert prefix[k] == buildTargets[k];
      }
      if HasCdylib(prefix) {
        var k :| 0 <= k < |prefix| && BuildsCdylib(prefix[k]);
        assert buildTargets[k] == prefix[k];
      }
    }
  }

  /** `get_compatible_targets_for_package(name, targets)`. */
  function CompatibleTargets(ws: Workspace, name: string, selection: TargetSelection): Result<seq<string>, Error> {
    var pkg :- MemberPackage(ws, name);
    Ok(FilterForBuildTargets(pkg.targets, RequestedTargets(selection)))
  }

  /**
   * For a workspace member, the compatible targets are the requested ones (all targets when
   * none are given), in order, less the iOS targets exactly when the package builds a cdylib.
   */
  lemma CompatibleTargetsMeaning(ws: Workspace, name: string, selection: TargetSelection)
    ensures var r := CompatibleTargets(ws, name, selection);
      && (r.Ok? <==> MemberPackage(ws, name).Ok?)
      && (r.Ok? ==> IsSubsequence(r.value, RequestedTargets(selection)))
      && (r.Ok? ==> forall target :: target in r.value <==>
            target in RequestedTargets(selection) && !(HasCdylib(MemberPackage(ws, name).value.targets) && TargetIsIos(target)))
      && (r.Ok? && HasCdylib(MemberPackage(ws, name).value.targets) ==> forall target :: target in r.value ==> !TargetIsIos(target))
      && (r.Ok? && !HasCdylib(MemberPackage(ws, name).value.targets) ==> r.value == RequestedTargets(selection))
  {
    if MemberPackage(ws, name).Ok? {
      FilterOncePerCdylib(MemberPackage(ws, name).value.targets, RequestedTargets(selection));
      IsSubsequenceOfItself(RequestedTargets(selection));
    }
  }

  /** The loop of `get_compatible_targets_for_package`, filtering again for every cdylib build target. */
  method GetCompatibleTargets(ws: Workspace, name: string, selection: TargetSelection) returns (r: Result<seq<string>, Error>)
    ensures r == CompatibleTargets(ws, name, selection)
  {
    var targets := RequestedTargets(selection);
    var pkg := MemberPackage(ws, name);
    if pkg.Err? {
      return Err(pkg.error);
    }
    var buildTargets := pkg.value.targets;
    var k := 0;
    while k < |buildTargets|
      invariant k <= |buildTargets|
      invariant targets == FilterForBuildTargets(buildTargets[..k], RequestedTargets(selection))
    {
      assert buildTargets[..k + 1][..k] == buildTargets[..k];
      if "cdylib" in buildTargets[k].kind {
        targets := WithoutIos(targets);
      }
      k := k + 1;
    }
    assert buildTargets[..k] == buildTargets;
    return Ok(targets);
  }

  /*
   * Dependencies managed outside cargo.
   */

  /** The extras one target calls for: the Android bindings' runtimes, or the iOS bindings'. */
  function TargetExtras(target: string): set<string> {
    (if TargetIsAndroid(target) then {"ext-jna", "ext-protobuf"} else {})
    + (if TargetIsIos(target) then {"ext-swift-protobuf"} else {})
  }

  /** The extras the target platforms call for, target by target. */
  function PlatformExtras(targets: seq<string>): set<string> {
    if targets == [] then {}
    else PlatformExtras(targets[..|targets| - 1]) + TargetExtras(targets[|targets| - 1])
  }

  /**
   * The platform extras are exactly the JNA and protobuf runtimes when some target is an
   * Android one, and the Swift protobuf runtime when some target is an iOS one.
   */
  lemma {:induction false} PlatformExtrasMeaning(targets: seq<string>)
    ensures forall x :: x in PlatformExtras(targets) <==>
      || ((x == "ext-jna" || x == "ext-protobuf") && exists i :: 0 <= i < |targets| && TargetIsAndroid(targets[i]))
      || (x == "ext-swift-protobuf" && exists i :: 0 <= i < |targets| && TargetIsIos(targets[i]))
  {
    if targets != [] {
      var prefix := targets[..|targets| - 1];
      PlatformExtrasMeaning(prefix);
      assert forall i :: 0 <= i < |prefix| ==> prefix[i] == targets[i];
      assert targets == prefix + [targets[|targets| - 1]];
    }
  }

  /** The extras pulled in by name: the table's entries for the names of the dependencies. */
  function NamedExtras(table: map<string, set<string>>, ws: Workspace, deps: set<string>): set<string>
    requires deps <= ws.pkgInfoById.Keys
  {
    set dep, x | dep in deps && ws.pkgInfoById[dep].name in table && x in table[ws.pkgInfoById[dep].name] :: x
  }

  /** `get_extra_dependencies_not_managed_by_cargo(name, targets, deps)`, as a set. */
  function ExtraDependencies(table: map<string, set<string>>, ws: Workspace, targets: seq<string>, deps: set<string>): set<string>
    requires deps <= ws.pkgInfoById.Keys
  {
    PlatformExtras(targets) + NamedExtras(table, ws, deps)
  }

  lemma NamedExtrasAdd(table: map<string, set<string>>, ws: Workspace, done: set<string>, dep: string)
    requires done <= ws.pkgInfoById.Keys && dep in ws.pkgInfoById
    ensures NamedExtras(table, ws, done + {dep}) == NamedExtras(table, ws, done)
      + (if ws.pkgInfoById[dep].name in table then table[ws.pkgInfoById[dep].name] else {})
  {
  }

  /**
   * The loops of `get_extra_dependencies_not_managed_by_cargo`: add the platform extras
   * target by target, then the table's entries dependency by dependency.
   */
  method GetExtraDependencies(table: map<string, set<string>>, ws: Workspace, targets: seq<string>, deps: set<string>)
    returns (extras: set<string>)
    requires deps <= ws.pkgInfoById.Keys
    ensures extras == ExtraDependencies(table, ws, targets, deps)
  {
    extras := {};
    var i := 0;
    while i < |targets|
      invariant i <= |targets|
      invariant extras == PlatformExtras(targets[..i])
    {
      assert targets[..i + 1][..i] == targets[..i];
      if TargetIsAndroid(targets[i]) {
        extras := extras + {"ext-jna", "ext-protobuf"};
      }
      if TargetIsIos(targets[i]) {
        extras := extras + {"ext-swift-protobuf"};
      }
      i := i + 1;
    }
    assert targets[..i] == targets;
    ghost var platform := extras;
    ghost var named: set<string> := {};
    var pending := deps;
    while pending != {}
      invariant pending <= deps
      invariant named == NamedExtras(table, ws, deps - pending)
      invariant extras == platform + named
      decreases pending
    {
      var dep :| dep in pending;
      NamedExtrasAdd(table, ws, deps - pending, dep);
      assert deps - (pending - {dep}) == (deps - pending) + {dep};
      var name := ws.pkgInfoById[dep].name;
      if name in table {
        extras := extras + table[name];
        named := named + table[name];
      }
      pending := pending - {dep};
    }
    assert deps - pending == deps;
  }

  /** With well-formed tables, every extra dependency is one of the packages added at load time. */
  lemma ExtrasAreKnownPackages(t: Tables, ws: Workspace, targets: seq<string>, deps: set<string>)
    requires WellFormedTables(t) && {"ext-jna", "ext-protobuf", "ext-swift-protobuf"} <= t.extras.Keys
    requires deps <= ws.pkgInfoById.Keys
    ensures ExtraDependencies(t.extraDependencies, ws, targets, deps) <= t.extras.Keys
  {
    PlatformExtrasMeaning(targets);
  }

  /** An Android target brings in the JNA and protobuf runtimes whatever the dependencies. */
  lemma AndroidNeedsJnaAndProtobuf(table: map<string, set<string>>, ws: Workspace, targets: seq<string>, deps: set<string>, i: nat)
    requires deps <= ws.pkgInfoById.Keys
    requires i < |targets| && TargetIsAndroid(targets[i])
    ensures "ext-jna" in ExtraDependencies(table, ws, targets, deps)
    ensures "ext-protobuf" in ExtraDependencies(table, ws, targets, deps)
  {
    PlatformExtrasMeaning(targets);
  }

  /** A dependency named in the table brings in its entries. */
  lemma NamedDependencyBringsExtras(table: map<string, set<string>>, ws: Workspace, targets: seq<string>, deps: set<string>, dep: string)
    requires deps <= ws.pkgInfoById.Keys
    requires dep in deps && ws.pkgInfoById[dep].name in table
    ensures table[ws.pkgInfoById[dep].name] <= ExtraDependencies(table, ws, targets, deps)
  {
  }

  /*
   * Dependencies listed by cargo's build plans.
   */

  /**
   * What `cargo build --build-plan --package <name> --target <target>` reports: the manifest
   * paths of the build's inputs, by package name and target. A missing entry is a cargo run
   * that failed.
   */
  type BuildPlans = map<(string, string), seq<string>>

  /** Every record indexed by manifest path has an id, and that id is indexed. */
  predicate ManifestsIndexed(ws: Workspace) {
    forall path :: path in ws.pkgInfoByManifestPath ==>
      ws.pkgInfoByManifestPath[path].id.Some? && ws.pkgInfoByManifestPath[path].id.value in ws.pkgInfoById
  }

  /** The packages managed outside cargo that the queries may add are indexed. */
  predicate ExtrasIndexed(t: Tables, ws: Workspace) {
    && {"ext-jna", "ext-protobuf", "ext-swift-protobuf"} <= ws.pkgInfoById.Keys
    && forall name :: name in t.extraDependencies ==> t.extraDependencies[name] <= ws.pkgInfoById.Keys
  }

  /** Every path dependency has a manifest path. */
  predicate RecordsClassifiable(ws: Workspace) {
    forall id :: id in ws.pkgInfoById ==> (ws.pkgInfoById[id].source.Null? ==> ws.pkgInfoById[id].manifestPath.Some?)
  }

  /** What the queries read without a `KeyError`. */
  predicate Queryable(t: Tables, ws: Workspace) {
    ManifestsIndexed(ws) && ExtrasIndexed(t, ws) && RecordsClassifiable(ws)
  }

  /** A package's dependencies are all indexed, so the queries can look each of them up. */
  lemma PackageDependenciesIndexed(t: Tables, ws: Workspace, plans: BuildPlans, name: string, selection: TargetSelection)
    requires Queryable(t, ws)
    ensures PackageDependencies(t, ws, plans, name, selection).Ok? ==>
      PackageDependencies(t, ws, plans, name, selection).value <= ws.pkgInfoById.Keys
  {
    var targets := CompatibleTargets(ws, name, selection);
    if targets.Ok? {
      PlatformExtrasMeaning(targets.value);
    }
  }

  /** The inner loop of `get_package_dependencies`: the ids of the packages at the listed manifest paths. */
  function ResolveManifests(ws: Workspace, paths: seq<string>): (r: Result<set<string>, Error>)
    requires ManifestsIndexed(ws)
    ensures r.Ok? ==> r.value <= ws.pkgInfoById.Keys
  {
    if paths == [] then Ok({})
    else
      var found :- ResolveManifests(ws, paths[..|paths| - 1]);
      var path := paths[|paths| - 1];
      if path !in ws.pkgInfoByManifestPath then Err(UnknownManifestPath(path))
      else Ok(found + {ws.pkgInfoByManifestPath[path].id.value})
  }

  /**
   * Resolving succeeds exactly when every path is an indexed manifest, and then yields the
   * ids of the records at those paths and nothing else.
   */
  lemma {:induction false} ResolveManifestsMeaning(ws: Workspace, paths: seq<string>)
    requires ManifestsIndexed(ws)
    ensures ResolveManifests(ws, paths).Ok? <==> forall k :: 0 <= k < |paths| ==> paths[k] in ws.pkgInfoByManifestPath
    ensures ResolveManifests(ws, paths).Ok? ==> forall id :: id in ResolveManifests(ws, paths).value <==>
      exists k :: 0 <= k < |paths| && ws.pkgInfoByManifestPath[paths[k]].id == Some(id)
  {
    if paths != [] {
      var prefix := paths[..|paths| - 1];
      ResolveManifestsMeaning(ws, prefix);
      assert forall k :: 0 <= k < |prefix| ==> prefix[k] == paths[k];
      if ResolveManifests(ws, paths).Ok? {
        forall id | exists k :: 0 <= k < |paths| && ws.pkgInfoByManifestPath[paths[k]].id == Some(id)
          ensures id in ResolveManifests(ws, paths).value
        {
          var k :| 0 <= k < |paths| && ws.pkgInfoByManifestPath[paths[k]].id == Some(id);
          if k < |prefix| {
            assert ws.pkgInfoByManifestPath[prefix[k]].id == Some(id);
          }
        }
      }
    }
  }

  lemma {:induction false} ResolveFailureSticks(ws: Workspace, paths: seq<string>, n: nat)
    requires ManifestsIndexed(ws)
    requires n <= |paths| && ResolveManifests(ws, paths[..n]).Err?
    ensures ResolveManifests(ws, paths) == ResolveManifests(ws, paths[..n])
    decreases |paths| - n
  {
    if n < |paths| {
      assert paths[..n + 1][..n] == paths[..n];
      ResolveFailureSticks(ws, paths, n + 1);
    } else {
      assert paths[..n] == paths;
    }
  }

  /** The target loop of `get_package_dependencies`: the union of the build plans' packages. */
  function CargoDependencies(ws: Workspace, plans: BuildPlans, name: string, targets: seq<string>): (r: Result<set<string>, Error>)
    requires ManifestsIndexed(ws)
    ensures r.Ok? ==> r.value <= ws.pkgInfoById.Keys
  {
    if targets == [] then Ok({})
    else
      var deps :- CargoDependencies(ws, plans, name, targets[..|targets| - 1]);
      var target := targets[|targets| - 1];
      if (name, target) !in plans then Err(BuildPlanFailed(name, target))
      else
        var found :- ResolveManifests(ws, plans[(name, target)]);
        Ok(deps + found)
  }

  /**
   * The union over targets succeeds exactly when every target has a build plan whose inputs
   * all resolve, and then holds exactly the packages some target's plan lists.
   */
  lemma {:induction false} CargoDependenciesMeaning(ws: Workspace, plans: BuildPlans, name: string, targets: seq<string>)
    requires ManifestsIndexed(ws)
    ensures CargoDependencies(ws, plans, name, targets).Ok? <==>
      forall i :: 0 <= i < |targets| ==> (name, targets[i]) in plans && ResolveManifests(ws, plans[(name, targets[i])]).Ok?
    ensures CargoDependencies(ws, plans, name, targets).Ok? ==> forall id :: id in CargoDependencies(ws, plans, name, targets).value <==>
      exists i :: 0 <= i < |targets| && id in ResolveManifests(ws, plans[(name, targets[i])]).value
  {
    if targets != [] {
      var prefix := targets[..|targets| - 1];
      CargoDependenciesMeaning(ws, plans, name, prefix);
      assert forall i :: 0 <= i < |prefix| ==> prefix[i] == targets[i];
      if CargoDependencies(ws, plans, name, targets).Ok? {
        forall id | exists i :: 0 <= i < |targets| && id in ResolveManifests(ws, plans[(name, targets[i])]).value
          ensures id in CargoDependencies(ws, plans, name, targets).value
        {
          var i :| 0 <= i < |targets| && id in ResolveManifests(ws, plans[(name, targets[i])]).value;
          if i < |prefix| {
            assert id in ResolveManifests(ws, plans[(name, prefix[i])]).value;
          }
        }
      }
    }
  }

  lemma {:induction false} CargoFailureSticks(ws: Workspace, plans: BuildPlans, name: string, targets: seq<string>, n: nat)
    requires ManifestsIndexed(ws)
    requires n <= |targets| && CargoDependencies(ws, plans, name, targets[..n]).Err?
    ensures CargoDependencies(ws, plans, name, targets) == CargoDependencies(ws, plans, name, targets[..n])
    decreases |targets| - n
  {
    if n < |targets| {
      assert targets[..n + 1][..n] == targets[..n];
      CargoFailureSticks(ws, plans, name, targets, n + 1);
    } else {
      assert targets[..n] == targets;
    }
  }

  /** `get_package_dependencies(name, targets)`: the build plans' packages plus the extras they call for. */
  function PackageDependencies(t: Tables, ws: Workspace, plans: BuildPlans, name: string, selection: TargetSelection)
    : Result<set<string>, Error>
    requires ManifestsIndexed(ws)
  {
    var targets :- CompatibleTargets(ws, name, selection);
    var deps :- CargoDependencies(ws, plans, name, targets);
    Ok(deps + ExtraDependencies(t.extraDependencies, ws, targets, deps))
  }

  /** The inner loop of `get_package_dependencies`: add the package at each input manifest to `deps`. */
  method AddBuildPlanInputs(ws: Workspace, inputs: seq<string>, deps: set<string>) returns (r: Result<set<string>, Error>)
    requires ManifestsIndexed(ws)
    ensures ResolveManifests(ws, inputs).Err? ==> r == Err(ResolveManifests(ws, inputs).error)
    ensures ResolveManifests(ws, inputs).Ok? ==> r == Ok(deps + ResolveManifests(ws, inputs).value)
  {
    var added := deps;
    var j := 0;
    while j < |inputs|
      invariant j <= |inputs|
      invariant ResolveManifests(ws, inputs[..j]).Ok? && added == deps + ResolveManifests(ws, inputs[..j]).value
    {
      assert inputs[..j + 1][..j] == inputs[..j];
      if inputs[j] !in ws.pkgInfoByManifestPath {
        ResolveFailureSticks(ws, inputs, j + 1);
        return Err(UnknownManifestPath(inputs[j]));
      }
      added := added + {ws.pkgInfoByManifestPath[inputs[j]].id.value};
      j := j + 1;
    }
    assert inputs[..j] == inputs;
    return Ok(added);
  }

  /**
   * `get_package_dependencies`: build-plan inputs target by target, resolved manifest by
   * manifest, then the dependencies managed outside cargo.
   */
  method GetPackageDependencies(t: Tables, ws: Workspace, plans: BuildPlans, name: string, selection: TargetSelection)
    returns (r: Result<set<string>, Error>)
    requires ManifestsIndexed(ws)
    ensures r == PackageDependencies(t, ws, plans, name, selection)
  {
    var compatible := GetCompatibleTargets(ws, name, selection);
    if compatible.Err? {
      return Err(compatible.error);
    }
    var targets := compatible.value;
    var cargo := CollectCargoDependencies(ws, plans, name, targets);
    if cargo.Err? {
      return Err(cargo.error);
    }
    var deps := cargo.value;
    var extras := GetExtraDependencies(t.extraDependencies, ws, targets, deps);
    return Ok(deps + extras);
  }

  /** The target loop of `get_package_dependencies`, stopping at the first target that fails. */
  method CollectCargoDependencies(ws: Workspace, plans: BuildPlans, name: string, targets: seq<string>)
    returns (r: Result<set<string>, Error>)
    requires ManifestsIndexed(ws)
    ensures r == CargoDependencies(ws, plans, name, targets)
  {
    var deps: set<string> := {};
    var i := 0;
    while i < |targets|
      invariant i <= |targets|
      invariant CargoDependencies(ws, plans, name, targets[..i]) == Ok(deps)
    {
      var target := targets[i];
      assert targets[..i + 1][..i] == targets[..i];
      if (name, target) !in plans {
        CargoFailureSticks(ws, plans, name, targets, i + 1);
        return Err(BuildPlanFailed(name, target));
      }
      var added := AddBuildPlanInputs(ws, plans[(name, target)], deps);
      if added.Err? {
        CargoFailureSticks(ws, plans, name, targets, i + 1);
        return Err(added.error);
      }
      deps := added.value;
      i := i + 1;
    }
    assert targets[..i] == targets;
    return Ok(deps);
  }

  /*
   * The loaded workspace.
   */

  /** A workspace as `WorkspaceMetadata.__init__` leaves it, with tables fit for the queries. */
  ghost predicate Loaded(t: Tables, ws: Workspace) {
    && WellFormedTables(t)
    && {"ext-jna", "ext-protobuf", "ext-swift-protobuf"} <= t.extras.Keys
    && Valid(t, ws)
  }

  lemma LoadedIsQueryable(t: Tables, ws: Workspace)
    requires Loaded(t, ws)
    ensures Queryable(t, ws)
  {
  }

  /** The tool's own tables and a successful load give a workspace the queries accept. */
  lemma LoadedAfterLoad(md: CargoMetadata)
    requires forall i :: 0 <= i < |md.packages| ==> IsCargoRecord(md.packages[i])
    ensures LoadWorkspace(StaticTables, md).Ok? ==> Loaded(StaticTables, LoadWorkspace(StaticTables, md).value)
  {
    StaticTablesWellFormed();
    ExtraTablesWellFormed();
    LoadWorkspaceValid(StaticTables, md);
  }

  /** No indexed record carries an excluded name. */
  predicate NoExcludedIndexed(t: Tables, ws: Workspace) {
    forall id :: id in ws.pkgInfoById ==> ws.pkgInfoById[id].name !in t.excluded
  }

  /**
   * Excluded records are never indexed, and no package managed outside cargo carries an
   * excluded name.
   */
  lemma LoadedExcludesNothing(t: Tables, ws: Workspace)
    requires Loaded(t, ws)
    ensures NoExcludedIndexed(t, ws)
  {
  }

  /** So no dependency of a package is an excluded package. */
  lemma PackageDependenciesNeverExcluded(t: Tables, ws: Workspace, plans: BuildPlans, name: string, selection: TargetSelection)
    requires Queryable(t, ws) && NoExcludedIndexed(t, ws)
    ensures PackageDependencies(t, ws, plans, name, selection).Ok? ==>
      forall id :: id in PackageDependencies(t, ws, plans, name, selection).value ==>
        id in ws.pkgInfoById && ws.pkgInfoById[id].name !in t.excluded
  {
    PackageDependenciesIndexed(t, ws, plans, name, selection);
  }

  /*
   * External dependencies and their license records.
   */

  /** Records `is_external_dependency` can classify: a path dependency has a manifest. */
  predicate Classifiable(ws: Workspace, id: string) {
    id in ws.pkgInfoById && (ws.pkgInfoById[id].source.Null? ==> ws.pkgInfoById[id].manifestPath.Some?)
  }

  /**
   * `is_external_dependency(id)`: a package from a registry or git, or managed outside cargo,
   * is external; a path dependency is external unless the workspace root is a prefix of its
   * manifest path, compared character by character.
   */
  function IsExternalDependency(ws: Workspace, id: string): (r: bool)
    requires Classifiable(ws, id)
    ensures r <==> (ws.pkgInfoById[id].source != Null
      || !StartsWith(ws.pkgInfoById[id].manifestPath.value, ws.metadata.workspaceRoot))
  {
    var pkg := ws.pkgInfoById[id];
    if pkg.source != Null then true
    else
      var root := ws.metadata.workspaceRoot;
      CommonPrefixIsRoot(pkg.manifestPath.value, root);
      CommonPrefix(pkg.manifestPath.value, root) != root
  }

  /**
   * The prefix test is on characters, not on path components: a path dependency in a sibling
   * directory whose name extends the workspace root's counts as part of the workspace.
   */
  lemma SiblingDirectoryCountsAsInternal(ws: Workspace, id: string)
    requires ws.metadata.workspaceRoot == "/src/app"
    requires id in ws.pkgInfoById && ws.pkgInfoById[id].source == Null
    requires ws.pkgInfoById[id].manifestPath == Some("/src/app-fork/Cargo.toml")
    ensures !IsExternalDependency(ws, id)
  {
    assert "/src/app-fork/Cargo.toml"[..|"/src/app"|] == "/src/app";
  }

  /** `get_license_info(id)`. */
  function LicenseInfoFor(ws: Workspace, env: Environment, id: string): Result<LicenseInfo, Error> {
    if id !in ws.pkgInfoById then Err(UnknownPackageId(id))
    else
    var pkg := ws.pkgInfoById[id];
    if pkg.license.None? then Err(MissingLicense(id))
    else
      var chosen :- PickMostAcceptableLicense(id, pkg.license.value);
      var text :- FetchLicenseText(chosen, pkg, env);
      Ok(LicenseInfo(pkg.name, pkg.repository, chosen, text))
  }

  /**
   * A license record carries the package's name and repository, one of the licenses its
   * expression offers, and, when the metadata embeds a text, that text. It fails when no
   * license is declared, when none offered is acceptable, or when no text can be found.
   */
  lemma LicenseInfoMeaning(ws: Workspace, env: Environment, id: string)
    requires id in ws.pkgInfoById
    ensures ws.pkgInfoById[id].license.None? ==> LicenseInfoFor(ws, env, id) == Err(MissingLicense(id))
    ensures var r := LicenseInfoFor(ws, env, id);
      r.Ok? ==>
        && r.value.name == ws.pkgInfoById[id].name && r.value.repository == ws.pkgInfoById[id].repository
        && r.value.license in LicenseSet(ws.pkgInfoById[id].license.value)
        && (ws.pkgInfoById[id].licenseText.Some? ==> r.value.text == ws.pkgInfoById[id].licenseText.value)
    ensures ws.pkgInfoById[id].license.Some? ==> (LicenseInfoFor(ws, env, id).Ok? <==>
      && PickMostAcceptableLicense(id, ws.pkgInfoById[id].license.value).Ok?
      && FetchLicenseText(PickMostAcceptableLicense(id, ws.pkgInfoById[id].license.value).value, ws.pkgInfoById[id], env).Ok?)
  {
  }

  /*
   * The dependency summary.
   */

  /**
   * The union of a sequence of results, taken front to back: the first error, or the union
   * of all the sets.
   */
  function UnionOfResults(parts: seq<Result<set<string>, Error>>): Result<set<string>, Error> {
    if parts == [] then Ok({})
    else
      var deps :- UnionOfResults(parts[..|parts| - 1]);
      var more :- parts[|parts| - 1];
      Ok(deps + more)
  }

  /** The union succeeds exactly when every part does. */
  lemma {:induction false} UnionSucceeds(parts: seq<Result<set<string>, Error>>)
    ensures UnionOfResults(parts).Ok? <==> forall i :: 0 <= i < |parts| ==> parts[i].Ok?
  {
    if parts != [] {
      var prefix := parts[..|parts| - 1];
      UnionSucceeds(prefix);
      assert forall i :: 0 <= i < |prefix| ==> prefix[i] == parts[i];
    }
  }

  /** A failing union fails with the error of the first part that fails. */
  lemma {:induction false} UnionFailsFirst(parts: seq<Result<set<string>, Error>>)
    ensures UnionOfResults(parts).Err? ==>
      exists i :: (0 <= i < |parts| && parts[i].Err? && UnionOfResults(parts).error == parts[i].error
                   && forall k :: 0 <= k < i ==> parts[k].Ok?)
  {
    if parts != [] {
      var prefix := parts[..|parts| - 1];
      UnionFailsFirst(prefix);
      UnionSucceeds(prefix);
      assert forall i :: 0 <= i < |prefix| ==> prefix[i] == parts[i];
    }
  }

  /** A successful union holds exactly the members of some part. */
  lemma {:induction false} UnionContent(parts: seq<Result<set<string>, Error>>)
    requires UnionOfResults(parts).Ok?
    ensures forall id :: id in UnionOfResults(parts).value <==>
      exists i :: 0 <= i < |parts| && parts[i].Ok? && id in parts[i].value
  {
    if parts != [] {
      var prefix := parts[..|parts| - 1];
      UnionContent(prefix);
      assert forall i :: 0 <= i < |prefix| ==> prefix[i] == parts[i];
    }
  }

  /** One more part: the union grows by it, or fails with its error. */
  lemma UnionStep(parts: seq<Result<set<string>, Error>>, i: nat, deps: set<string>)
    requires i < |parts| && UnionOfResults(parts[..i]) == Ok(deps)
    ensures parts[i].Ok? ==> UnionOfResults(parts[..i + 1]) == Ok(deps + parts[i].value)
    ensures parts[i].Err? ==> UnionOfResults(parts[..i + 1]) == Err(parts[i].error)
  {
    assert parts[..i + 1][..i] == parts[..i];
  }

  /** Once a prefix of the parts fails, the rest are never looked at. */
  lemma {:induction false} UnionFailureSticks(parts: seq<Result<set<string>, Error>>, n: nat)
    requires n <= |parts| && UnionOfResults(parts[..n]).Err?
    ensures UnionOfResults(parts) == UnionOfResults(parts[..n])
    decreases |parts| - n
  {
    if n < |parts| {
      assert parts[..n + 1][..n] == parts[..n];
      UnionFailureSticks(parts, n + 1);
    } else {
      assert parts[..n] == parts;
    }
  }

  /** The dependencies of each of `names`, in order. */
  function MemberResults(t: Tables, ws: Workspace, plans: BuildPlans, names: seq<string>, selection: TargetSelection)
    : (parts: seq<Result<set<string>, Error>>)
    requires ManifestsIndexed(ws)
    ensures |parts| == |names|
    ensures forall i :: 0 <= i < |names| ==> parts[i] == PackageDependencies(t, ws, plans, names[i], selection)
  {
    seq(|names|, i requires 0 <= i < |names| => PackageDependencies(t, ws, plans, names[i], selection))
  }

  /** The member loop of `get_dependency_summary`: the union of the members' dependencies. */
  function MembersDependencies(t: Tables, ws: Workspace, plans: BuildPlans, names: seq<string>, selection: TargetSelection)
    : Result<set<string>, Error>
    requires ManifestsIndexed(ws)
  {
    UnionOfResults(MemberResults(t, ws, plans, names, selection))
  }

  /** `allDepNames`: the package names of the dependencies. */
  function DependencyNames(ws: Workspace, deps: set<string>): set<string>
    requires deps <= ws.pkgInfoById.Keys
  {
    set dep | dep in deps :: ws.pkgInfoById[dep].name
  }

  /** `unnecessaryDeps`: the fixup entries for packages that are not among the dependencies. */
  function UnnecessaryFixupsAmong(t: Tables, ws: Workspace, deps: set<string>): set<string>
    requires deps <= ws.pkgInfoById.Keys
  {
    set name | name in t.fixups && name !in DependencyNames(ws, deps)
  }

  /** A union of results whose parts are all within `bound` is within `bound`. */
  lemma {:induction false} UnionWithin(parts: seq<Result<set<string>, Error>>, bound: set<string>)
    requires forall i :: 0 <= i < |parts| && parts[i].Ok? ==> parts[i].value <= bound
    ensures UnionOfResults(parts).Ok? ==> UnionOfResults(parts).value <= bound
  {
    if parts != [] {
      UnionWithin(parts[..|parts| - 1], bound);
    }
  }

  lemma MembersDependenciesIndexed(t: Tables, ws: Workspace, plans: BuildPlans, names: seq<string>, selection: TargetSelection)
    requires Queryable(t, ws)
    ensures MembersDependencies(t, ws, plans, names, selection).Ok? ==>
      MembersDependencies(t, ws, plans, names, selection).value <= ws.pkgInfoById.Keys
  {
    var parts := MemberResults(t, ws, plans, names, selection);
    forall i | 0 <= i < |parts| && parts[i].Ok? ensures parts[i].value <= ws.pkgInfoById.Keys {
      PackageDependenciesIndexed(t, ws, plans, names[i], selection);
    }
    UnionWithin(parts, ws.pkgInfoById.Keys);
  }

  /**
   * The dependencies `get_dependency_summary` reports on: those of the named package, or,
   * with no name, those of every workspace member, after checking that every fixup entry
   * is for one of them.
   */
  function DependencyClosure(t: Tables, ws: Workspace, plans: BuildPlans, name: Option<string>, selection: TargetSelection)
    : (r: Result<set<string>, Error>)
    requires Queryable(t, ws)
    ensures r.Ok? ==> r.value <= ws.pkgInfoById.Keys
  {
    if name.Some? then
      PackageDependenciesIndexed(t, ws, plans, name.value, selection);
      PackageDependencies(t, ws, plans, name.value, selection)
    else
      MembersDependenciesIndexed(t, ws, plans, ws.memberNames, selection);
      var deps :- MembersDependencies(t, ws, plans, ws.memberNames, selection);
      var unnecessary := UnnecessaryFixupsAmong(t, ws, deps);
      if unnecessary != {} then Err(UnnecessaryFixups(unnecessary)) else Ok(deps)
  }

  /** No excluded package is ever reported on. */
  lemma ClosureNeverExcluded(t: Tables, ws: Workspace, plans: BuildPlans, name: Option<string>, selection: TargetSelection)
    requires Queryable(t, ws) && NoExcludedIndexed(t, ws)
    ensures DependencyClosure(t, ws, plans, name, selection).Ok? ==>
      forall id :: id in DependencyClosure(t, ws, plans, name, selection).value ==> ws.pkgInfoById[id].name !in t.excluded
  {
  }

  /**
   * Summarising the whole workspace fails when a fixup entry names a package that is not a
   * dependency of any member, and otherwise covers every member's dependencies.
   */
  lemma WorkspaceSummaryChecksFixups(t: Tables, ws: Workspace, plans: BuildPlans, selection: TargetSelection)
    requires Queryable(t, ws)
    ensures var r := DependencyClosure(t, ws, plans, None, selection);
      && (MembersDependencies(t, ws, plans, ws.memberNames, selection).Err? ==>
            r == Err(MembersDependencies(t, ws, plans, ws.memberNames, selection).error))
      && (r.Ok? ==> forall name :: name in t.fixups ==> exists id :: id in r.value && ws.pkgInfoById[id].name == name)
      && (r.Ok? ==> forall i :: 0 <= i < |ws.memberNames| ==>
            (PackageDependencies(t, ws, plans, ws.memberNames[i], selection).Ok?
             && PackageDependencies(t, ws, plans, ws.memberNames[i], selection).value <= r.value))
  {
    var parts := MemberResults(t, ws, plans, ws.memberNames, selection);
    UnionSucceeds(parts);
    UnionFailsFirst(parts);
    var r := DependencyClosure(t, ws, plans, None, selection);
    if r.Ok? {
      UnionContent(parts);
      var deps := r.value;
      forall name | name in t.fixups ensures exists id :: id in deps && ws.pkgInfoById[id].name == name {
        assert name !in UnnecessaryFixupsAmong(t, ws, deps);
      }
    }
  }

  /** Every workspace member's dependencies can be computed. */
  predicate AllMembersResolve(t: Tables, ws: Workspace, plans: BuildPlans, selection: TargetSelection)
    requires ManifestsIndexed(ws)
  {
    forall i :: 0 <= i < |ws.memberNames| ==> PackageDependencies(t, ws, plans, ws.memberNames[i], selection).Ok?
  }

  /** Some workspace member depends on a package called `name`. */
  ghost predicate NamedByMemberDependency(t: Tables, ws: Workspace, plans: BuildPlans, selection: TargetSelection, name: string)
    requires ManifestsIndexed(ws)
  {
    exists i, id ::
      && 0 <= i < |ws.memberNames|
      && PackageDependencies(t, ws, plans, ws.memberNames[i], selection).Ok?
      && id in PackageDependencies(t, ws, plans, ws.memberNames[i], selection).value
      && id in ws.pkgInfoById && ws.pkgInfoById[id].name == name
  }

  /** With every member resolved, a fixup entry names a dependency exactly when some member depends on that package. */
  lemma MemberDependencyNames(t: Tables, ws: Workspace, plans: BuildPlans, selection: TargetSelection, name: string)
    requires Queryable(t, ws) && AllMembersResolve(t, ws, plans, selection)
    ensures MembersDependencies(t, ws, plans, ws.memberNames, selection).Ok?
    ensures var deps := MembersDependencies(t, ws, plans, ws.memberNames, selection).value;
      deps <= ws.pkgInfoById.Keys
      && (name in DependencyNames(ws, deps) <==> NamedByMemberDependency(t, ws, plans, selection, name))
  {
    var parts := MemberResults(t, ws, plans, ws.memberNames, selection);
    UnionSucceeds(parts);
    MembersDependenciesIndexed(t, ws, plans, ws.memberNames, selection);
    UnionContent(parts);
    var deps := MembersDependencies(t, ws, plans, ws.memberNames, selection).value;
    if name in DependencyNames(ws, deps) {
      var id :| id in deps && ws.pkgInfoById[id].name == name;
      var i :| 0 <= i < |parts| && parts[i].Ok? && id in parts[i].value;
      assert parts[i] == PackageDependencies(t, ws, plans, ws.memberNames[i], selection);
    }
    if NamedByMemberDependency(t, ws, plans, selection, name) {
      var i, id :|
        && 0 <= i < |ws.memberNames|
        && PackageDependencies(t, ws, plans, ws.memberNames[i], selection).Ok?
        && id in PackageDependencies(t, ws, plans, ws.memberNames[i], selection).value
        && id in ws.pkgInfoById && ws.pkgInfoById[id].name == name;
      assert parts[i].Ok? && id in parts[i].value;
    }
  }

  /**
   * Summarising the whole workspace, in full: the closure is exactly the union of the
   * members' dependencies; it succeeds exactly when every member resolves and every fixup
   * entry names a package some member depends on; and when every member resolves but it
   * fails, the error lists exactly the fixup entries no member depends on.
   */
  lemma WorkspaceClosureMeaning(t: Tables, ws: Workspace, plans: BuildPlans, selection: TargetSelection)
    requires Queryable(t, ws)
    ensures var r := DependencyClosure(t, ws, plans, None, selection);
      r.Ok? ==> forall id :: id in r.value <==>
        exists i :: (0 <= i < |ws.memberNames| && PackageDependencies(t, ws, plans, ws.memberNames[i], selection).Ok?
                     && id in PackageDependencies(t, ws, plans, ws.memberNames[i], selection).value)
    ensures DependencyClosure(t, ws, plans, None, selection).Ok? <==>
      && AllMembersResolve(t, ws, plans, selection)
      && forall name :: name in t.fixups ==> NamedByMemberDependency(t, ws, plans, selection, name)
    ensures var r := DependencyClosure(t, ws, plans, None, selection);
      AllMembersResolve(t, ws, plans, selection) && r.Err? ==>
        && r.error.UnnecessaryFixups?
        && forall name :: name in r.error.names <==>
             name in t.fixups && !NamedByMemberDependency(t, ws, plans, selection, name)
  {
    var parts := MemberResults(t, ws, plans, ws.memberNames, selection);
    UnionSucceeds(parts);
    if AllMembersResolve(t, ws, plans, selection) {
      UnionContent(parts);
      MembersDependenciesIndexed(t, ws, plans, ws.memberNames, selection);
      var deps := MembersDependencies(t, ws, plans, ws.memberNames, selection).value;
      var unnecessary := UnnecessaryFixupsAmong(t, ws, deps);
      forall name ensures name in unnecessary <==> name in t.fixups && !NamedByMemberDependency(t, ws, plans, selection, name) {
        MemberDependencyNames(t, ws, plans, selection, name);
      }
      if forall name :: name in t.fixups ==> NamedByMemberDependency(t, ws, plans, selection, name) {
        assert unnecessary == {};
      } else {
        var name :| name in t.fixups && !NamedByMemberDependency(t, ws, plans, selection, name);
        assert name in unnecessary;
      }
    }
  }

  /** The external dependencies among `deps`. */
  function ExternalDependencies(ws: Workspace, deps: set<string>): (ext: set<string>)
    requires deps <= ws.pkgInfoById.Keys && RecordsClassifiable(ws)
    ensures ext <= deps
  {
    set id | id in deps && IsExternalDependency(ws, id)
  }

  lemma AppendKeepsNoDuplicates(xs: seq<string>, x: string)
    requires NoDuplicates(xs) && x !in xs
    ensures NoDuplicates(xs + [x])
  {
  }

  /**
   * The final loop of `get_dependency_summary`, with `infoOf` for `get_license_info`: the
   * record of each external dependency, in the order the set of dependencies is walked, which
   * Python leaves unspecified. `visited` is that order; the first record that cannot be
   * produced ends the walk.
   */
  method CollectLicenseInfos(ws: Workspace, deps: set<string>, infoOf: string -> Result<LicenseInfo, Error>)
    returns (r: Result<seq<LicenseInfo>, Error>, visited: seq<string>)
    requires deps <= ws.pkgInfoById.Keys && RecordsClassifiable(ws)
    ensures r.Ok? ==>
      && NoDuplicates(visited)
      && (forall i :: 0 <= i < |visited| ==> visited[i] in deps)
      && (forall id :: id in visited <==> id in ExternalDependencies(ws, deps))
      && |r.value| == |visited|
      && (forall i :: 0 <= i < |visited| ==> infoOf(visited[i]) == Ok(r.value[i]))
    ensures r.Ok? <==> forall id :: id in ExternalDependencies(ws, deps) ==> infoOf(id).Ok?
    ensures r.Err? ==> exists id :: id in ExternalDependencies(ws, deps) && infoOf(id) == Err(r.error)
  {
    visited := [];
    var infos: seq<LicenseInfo> := [];
    var pending := deps;
    while pending != {}
      invariant pending <= deps
      invariant NoDuplicates(visited)
      invariant forall i :: 0 <= i < |visited| ==> visited[i] in deps
      invariant forall id :: id in visited <==> id in ExternalDependencies(ws, deps - pending)
      invariant |infos| == |visited|
      invariant forall i :: 0 <= i < |visited| ==> infoOf(visited[i]) == Ok(infos[i])
      decreases pending
    {
      var id :| id in pending;
      if IsExternalDependency(ws, id) {
        var info := infoOf(id);
        if info.Err? {
          return Err(info.error), visited;
        }
        assert id !in ExternalDependencies(ws, deps - pending);
        AppendKeepsNoDuplicates(visited, id);
        visited := visited + [id];
        infos := infos + [info.value];
      }
      pending := pending - {id};
    }
    assert deps - pending == deps;
    return Ok(infos), visited;
  }

  /**
   * `get_dependency_summary(name, targets)`: the license record of each external dependency
   * of the named package, or of the whole workspace, in the order `visited`.
   */
  method GetDependencySummary(t: Tables, ws: Workspace, plans: BuildPlans, env: Environment, name: Option<string>, selection: TargetSelection)
    returns (r: Result<seq<LicenseInfo>, Error>, visited: seq<string>)
    requires Queryable(t, ws)
    ensures var deps := DependencyClosure(t, ws, plans, name, selection);
      && (deps.Err? ==> r == Err(deps.error))
      && (deps.Ok? && r.Ok? ==>
            && NoDuplicates(visited)
            && (forall i :: 0 <= i < |visited| ==> visited[i] in deps.value)
            && (forall id :: id in visited <==> id in ExternalDependencies(ws, deps.value))
            && |r.value| == |visited|
            && (forall i :: 0 <= i < |visited| ==> LicenseInfoFor(ws, env, visited[i]) == Ok(r.value[i])))
      && (deps.Ok? ==> (r.Ok? <==> forall id :: id in ExternalDependencies(ws, deps.value) ==> LicenseInfoFor(ws, env, id).Ok?))
      && (deps.Ok? && r.Err? ==> exists id :: id in ExternalDependencies(ws, deps.value) && LicenseInfoFor(ws, env, id) == Err(r.error))
  {
    var closure := GetDependencyClosure(t, ws, plans, name, selection);
    if closure.Err? {
      return Err(closure.error), [];
    }
    r, visited := CollectLicenseInfos(ws, closure.value, id => LicenseInfoFor(ws, env, id));
  }

  /** The member loop of `get_dependency_summary`: add each member's dependencies, stopping at the first failure. */
  method UnionOfMembers(t: Tables, ws: Workspace, plans: BuildPlans, names: seq<string>, selection: TargetSelection)
    returns (r: Result<set<string>, Error>)
    requires ManifestsIndexed(ws)
    ensures r == MembersDependencies(t, ws, plans, names, selection)
  {
    var deps: set<string> := {};
    ghost var parts := MemberResults(t, ws, plans, names, selection);
    var i := 0;
    while i < |names|
      invariant i <= |names|
      invariant UnionOfResults(parts[..i]) == Ok(deps)
    {
      var more := GetPackageDependencies(t, ws, plans, names[i], selection);
      UnionStep(parts, i, deps);
      if more.Err? {
        UnionFailureSticks(parts, i + 1);
        return Err(more.error);
      }
      deps := deps + more.value;
      i := i + 1;
    }
    assert parts[..i] == parts;
    return Ok(deps);
  }

  /** The dependency loops of `get_dependency_summary`, with the check of the fixup table. */
  method GetDependencyClosure(t: Tables, ws: Workspace, plans: BuildPlans, name: Option<string>, selection: TargetSelection)
    returns (r: Result<set<string>, Error>)
    requires Queryable(t, ws)
    ensures r == DependencyClosure(t, ws, plans, name, selection)
  {
    if name.Some? {
      r := GetPackageDependencies(t, ws, plans, name.value, selection);
      return;
    }
    MembersDependenciesIndexed(t, ws, plans, ws.memberNames, selection);
    var members := UnionOfMembers(t, ws, plans, ws.memberNames, selection);
    if members.Err? {
      return Err(members.error);
    }
    var deps := members.value;
    var unnecessary := UnnecessaryFixupsAmong(t, ws, deps);
    if unnecessary != {} {
      return Err(UnnecessaryFixups(unnecessary));
    }
    return Ok(deps);
  }
}
