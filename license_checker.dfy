/**
 * The lockfile-to-compliance-tree transformation of
 * packages/plugin-commands-licenses/src/licenseChecker.ts.
 *
 * The operations that fill an object in a loop (`toRequires`,
 * `lockfileToLicenseComplianceNode`, `lockfileToData`) are methods, each proved
 * equal to a specification function; the straight-line ones
 * (`getPackageDetails`) are functions. What the code calls but does not define
 * is passed in as a `Collaborators` value.
 */
module LicenseChecker {
  import opened Wrappers
  import opened Records
  import opened LicenseTypes
  import opened LockfileWalker

  /** `includeFields` is the `include` option (`include` is a keyword here). */
  datatype LicenseCheckOptions = LicenseCheckOptions(includeFields: Option<Include>, dir: string, virtualStoreDir: string)

  datatype NameVer = NameVer(name: string, version: string)

  /**
   * The functions the checker calls from other packages, left uninterpreted:
   * `nameVerFromPkgSnapshot`, `dp.depPathToFilename`, `path.join` (its
   * arguments as a list), `safeReadProjectManifestOnly` (`None` for a `null`
   * or `undefined` result; the file system is not modelled), `parseLicense`,
   * and `lockfileWalkerGroupImporterSteps`.
   */
  datatype Collaborators = Collaborators(
    nameVerFromPkgSnapshot: (string, PackageSnapshot) -> NameVer,
    depPathToFilename: string -> string,
    join: seq<string> -> string,
    safeReadProjectManifestOnly: string -> Option<Manifest>,
    parseLicense: (Manifest, string) -> LicenseInfo,
    lockfileWalkerGroupImporterSteps: (Lockfile, seq<string>, Option<Include>) -> seq<ImporterWalker>)

  /** The placeholder version of every importer entry. */
  const ImporterVersion: string := "0.0.0"

  /** The package name an edge is stored under. */
  function NameOf(dep: LockedDependency, env: Collaborators): string {
    env.nameVerFromPkgSnapshot(dep.depPath, dep.pkgSnapshot).name
  }

  /** The directory a package is installed in: `<dir>/<virtualStoreDir>/<depPath as file name>/node_modules/<name>`. */
  function InstallDir(opts: LicenseCheckOptions, env: Collaborators, depPath: string, name: string): string {
    var virtualStoreDir := env.join([opts.dir, opts.virtualStoreDir]);
    var modules := env.join([virtualStoreDir, env.depPathToFilename(depPath), "node_modules"]);
    env.join([modules, name])
  }

  /** `getPackageDetails`: where the package lives and what its manifest says. */
  function GetPackageDetails(dep: LockedDependency, opts: LicenseCheckOptions, env: Collaborators): (details: PackageDetails)
    ensures details.name == NameOf(dep, env)
    ensures details.version == env.nameVerFromPkgSnapshot(dep.depPath, dep.pkgSnapshot).version
    ensures details.path == InstallDir(opts, env, dep.depPath, details.name)
    ensures env.safeReadProjectManifestOnly(details.path).None? ==> details.manifest == Empty()
    ensures env.safeReadProjectManifestOnly(details.path).Some? ==>
              details.manifest == env.safeReadProjectManifestOnly(details.path).value
  {
    var nv := env.nameVerFromPkgSnapshot(dep.depPath, dep.pkgSnapshot);
    var dir := InstallDir(opts, env, dep.depPath, nv.name);
    var manifest := env.safeReadProjectManifestOnly(dir).GetOr(Empty());
    PackageDetails(nv.name, nv.version, dir, manifest)
  }

  /** The `requires` object of a map of nodes: each name to that node's `version`. */
  function RequiresOf(nodes: Record<LicenseComplianceNode>): (versions: Record<Option<string>>)
    ensures Keys(versions) == Keys(nodes)
    ensures forall k {:trigger Get(versions, k)} :: k in Keys(nodes) ==> Get(versions, k) == Some(Get(nodes, k).value.version)
  {
    var es := nodes.entries;
    var entries := seq(|es|, i requires 0 <= i < |es| => Entry(es[i].key, es[i].value.version));
    assert KeysOf(entries) == Keys(nodes);
    var r: Record<Option<string>> := Object(entries);
    r
  }

  /** `toRequires` */
  method ToRequires(nodesByDepName: Record<LicenseComplianceNode>) returns (versions: Record<Option<string>>)
    ensures versions == RequiresOf(nodesByDepName)
  {
    var names := Keys(nodesByDepName);
    versions := Empty();
    for i := 0 to |names|
      invariant Keys(versions) == names[..i]
      invariant forall k :: k in names[..i] ==> Get(versions, k) == Some(Get(nodesByDepName, k).value.version)
    {
      var subdepName := names[i];
      NextKeyInOrder(names, i);
      versions := Put(versions, subdepName, Get(nodesByDepName, subdepName).value.version);
    }
    assert names[..|names|] == names;
    Extensionality(versions, RequiresOf(nodesByDepName));
  }

  /** The node built for one edge before its sub-dependencies are attached. */
  function LeafNode(dep: LockedDependency, opts: LicenseCheckOptions, env: Collaborators): LicenseComplianceNode {
    var nv := env.nameVerFromPkgSnapshot(dep.depPath, dep.pkgSnapshot);
    var details := GetPackageDetails(dep, opts, env);
    LicenseComplianceNode(
      version := Some(nv.version),
      integrity := dep.pkgSnapshot.resolution.integrity,
      licenseInfo := Some(env.parseLicense(details.manifest, details.path)),
      requiresMap := None,
      dependencies := None,
      dev := Some(dep.pkgSnapshot.dev == Some(JsBool(true))))
  }

  /** A node with `dependencies` and `requires` attached when `subdeps` is not empty. */
  function WithSubdeps(node: LicenseComplianceNode, subdeps: Record<LicenseComplianceNode>): LicenseComplianceNode {
    if |subdeps.entries| > 0 then node.(dependencies := Some(subdeps), requiresMap := Some(RequiresOf(subdeps)))
    else node
  }

  /** The node `lockfileToLicenseComplianceNode` builds for one edge, its whole subtree included. */
  function NodeFor(dep: LockedDependency, opts: LicenseCheckOptions, env: Collaborators): LicenseComplianceNode
    decreases dep, 2
  {
    WithSubdeps(LeafNode(dep, opts, env), Build(dep.next, opts, env))
  }

  /** The assignments `dependencies[name] = dep` the loop over `step.dependencies` makes, in order. */
  function BuiltEntries(step: WalkerStep, opts: LicenseCheckOptions, env: Collaborators): (pairs: seq<Entry<LicenseComplianceNode>>)
    ensures |pairs| == |step.dependencies|
    decreases step, 0
  {
    var deps := step.dependencies;
    seq(|deps|, i requires 0 <= i < |deps| => Entry(NameOf(deps[i], env), NodeFor(deps[i], opts, env)))
  }

  /** The object `lockfileToLicenseComplianceNode(step)` returns. */
  function Build(step: WalkerStep, opts: LicenseCheckOptions, env: Collaborators): Record<LicenseComplianceNode>
    decreases step, 1
  {
    FromEntries(BuiltEntries(step, opts, env))
  }

  /** `lockfileToLicenseComplianceNode` */
  method LockfileToLicenseComplianceNode(step: WalkerStep, opts: LicenseCheckOptions, env: Collaborators)
    returns (dependencies: Record<LicenseComplianceNode>)
    ensures dependencies == Build(step, opts, env)
    decreases step
  {
    dependencies := Empty();
    for i := 0 to |step.dependencies|
      invariant dependencies == FromEntries(BuiltEntries(step, opts, env)[..i])
    {
      var dependency := step.dependencies[i];
      var nv := env.nameVerFromPkgSnapshot(dependency.depPath, dependency.pkgSnapshot);
      var subdeps := LockfileToLicenseComplianceNode(dependency.next, opts, env);
      var packageDetails := GetPackageDetails(dependency, opts, env);
      var licenseInfo := env.parseLicense(packageDetails.manifest, packageDetails.path);
      var dep := LicenseComplianceNode(
        version := Some(nv.version),
        integrity := dependency.pkgSnapshot.resolution.integrity,
        licenseInfo := Some(licenseInfo),
        requiresMap := None,
        dependencies := None,
        dev := Some(dependency.pkgSnapshot.dev == Some(JsBool(true))));
      assert dep == LeafNode(dependency, opts, env);
      if |Keys(subdeps)| > 0 {
        var versions := ToRequires(subdeps);
        dep := dep.(dependencies := Some(subdeps), requiresMap := Some(versions));
      }
      assert dep == NodeFor(dependency, opts, env);
      FromEntriesPrefix(BuiltEntries(step, opts, env), i);
      dependencies := Put(dependencies, nv.name, dep);
    }
    assert BuiltEntries(step, opts, env)[..|step.dependencies|] == BuiltEntries(step, opts, env);
  }

  /** The importer walkers `lockfileToData` asks for: one walk per key of `lockfile.importers`. */
  function ImporterWalkers(lockfile: Lockfile, opts: LicenseCheckOptions, env: Collaborators): seq<ImporterWalker> {
    env.lockfileWalkerGroupImporterSteps(lockfile, Keys(lockfile.importers), opts.includeFields)
  }

  /** The entry stored for one importer: its dependencies, their `requires`, and the placeholder version. */
  function ImporterNode(importerDeps: Record<LicenseComplianceNode>): LicenseComplianceNode {
    LicenseComplianceNode(
      version := Some(ImporterVersion),
      integrity := None,
      licenseInfo := None,
      requiresMap := Some(RequiresOf(importerDeps)),
      dependencies := Some(importerDeps),
      dev := None)
  }

  /** The assignments `dependencies[importerId] = …` the loop over the importer walkers makes, in order. */
  function ImporterEntries(walkers: seq<ImporterWalker>, opts: LicenseCheckOptions, env: Collaborators)
    : (pairs: seq<Entry<LicenseComplianceNode>>)
    ensures |pairs| == |walkers|
  {
    seq(|walkers|, i requires 0 <= i < |walkers| => Entry(walkers[i].importerId, ImporterNode(Build(walkers[i].step, opts, env))))
  }

  /** The synthetic root around the importer entries, with its fixed placeholder members. */
  function TreeWith(dependencies: Record<LicenseComplianceNode>): LicenseComplianceTree {
    LicenseComplianceTree(
      root := LicenseComplianceNode(
        version := None,
        integrity := None,
        licenseInfo := None,
        requiresMap := Some(RequiresOf(dependencies)),
        dependencies := Some(dependencies),
        dev := Some(false)),
      name := None,
      install := [],
      remove := [],
      metadata := Empty())
  }

  /** The tree `lockfileToData` returns, with the builder called at line 157. */
  function TreeOf(lockfile: Lockfile, opts: LicenseCheckOptions, env: Collaborators): LicenseComplianceTree {
    var walkers := ImporterWalkers(lockfile, opts, env);
    TreeWith(FromEntries(ImporterEntries(walkers, opts, env)))
  }

  /** `lockfileToData`, calling `lockfileToLicenseComplianceNode` for each importer. */
  method LockfileToData(lockfile: Lockfile, opts: LicenseCheckOptions, env: Collaborators)
    returns (tree: LicenseComplianceTree)
    ensures tree == TreeOf(lockfile, opts, env)
  {
    var importerWalkers := env.lockfileWalkerGroupImporterSteps(lockfile, Keys(lockfile.importers), opts.includeFields);
    var dependencies := Empty();
    for i := 0 to |importerWalkers|
      invariant dependencies == FromEntries(ImporterEntries(importerWalkers, opts, env)[..i])
    {
      var importerWalker := importerWalkers[i];
      var importerDeps := LockfileToLicenseComplianceNode(importerWalker.step, opts, env);
      var depName := importerWalker.importerId;
      var versions := ToRequires(importerDeps);
      var entry := LicenseComplianceNode(
        version := Some(ImporterVersion),
        integrity := None,
        licenseInfo := None,
        requiresMap := Some(versions),
        dependencies := Some(importerDeps),
        dev := None);
      assert entry == ImporterNode(Build(importerWalker.step, opts, env));
      FromEntriesPrefix(ImporterEntries(importerWalkers, opts, env), i);
      dependencies := Put(dependencies, depName, entry);
    }
    assert ImporterEntries(importerWalkers, opts, env)[..|importerWalkers|] == ImporterEntries(importerWalkers, opts, env);
    var versions := ToRequires(dependencies);
    tree := LicenseComplianceTree(
      root := LicenseComplianceNode(
        version := None,
        integrity := None,
        licenseInfo := None,
        requiresMap := Some(versions),
        dependencies := Some(dependencies),
        dev := Some(false)),
      name := None,
      install := [],
      remove := [],
      metadata := Empty());
  }

  /** What evaluating line 157 throws: the name it calls is not defined anywhere. */
  const UndefinedBuilderError: string := "ReferenceError: lockfileToAuditNode is not defined"

  /**
   * `lockfileToData` exactly as written: the first importer reaches the call to
   * the undefined `lockfileToAuditNode` and the whole call throws; only a
   * lockfile whose walk yields no importer gets a tree.
   */
  function LockfileToDataAsWritten(lockfile: Lockfile, opts: LicenseCheckOptions, env: Collaborators)
    : (r: Result<LicenseComplianceTree, string>)
    ensures r.Success? <==> ImporterWalkers(lockfile, opts, env) == []
    ensures r.Failure? ==> r.error == UndefinedBuilderError
    ensures r.Success? ==> r.value == TreeOf(lockfile, opts, env)
  {
    var walkers := ImporterWalkers(lockfile, opts, env);
    if walkers == [] then Success(TreeWith(Empty())) else Failure(UndefinedBuilderError)
  }

  /** `licenseCheck`: builds the tree, then returns a report that does not depend on it. */
  method LicenseCheck(lockfile: Lockfile, opts: LicenseCheckOptions, env: Collaborators)
    returns (report: LicenseComplianceReport)
    ensures Keys(report.licenses) == []
    ensures report.metadata.totalDependencies == 0
    ensures report.metadata.dependencies == 0
    ensures report.metadata.devDependencies == 0
    ensures report.metadata.optionalDependencies == 0
  {
    var auditTree := LockfileToData(lockfile, opts, env);
    report := LicenseComplianceReport(
      licenses := Empty(),
      metadata := LicenseComplianceMetadata(
        dependencies := 0,
        devDependencies := 0,
        optionalDependencies := 0,
        totalDependencies := 0));
  }
}
