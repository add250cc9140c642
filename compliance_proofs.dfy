/**
 * What the compliance tree built by `lockfileToLicenseComplianceNode` and
 * `lockfileToData` looks like, for every walk and every behaviour of the
 * collaborators.
 */
module ComplianceProofs {
  import opened Wrappers
  import opened Records
  import opened LicenseTypes
  import opened LockfileWalker
  import opened LicenseChecker

  /** The names the edges of a step decode to, in edge order. */
  function EdgeNames(step: WalkerStep, env: Collaborators): (names: seq<string>)
    ensures |names| == |step.dependencies|
  {
    seq(|step.dependencies|, i requires 0 <= i < |step.dependencies| => NameOf(step.dependencies[i], env))
  }

  /** No two edges of the step decode to the same name. */
  predicate DistinctNames(step: WalkerStep, env: Collaborators) {
    forall i, j :: 0 <= i < j < |step.dependencies| ==> NameOf(step.dependencies[i], env) != NameOf(step.dependencies[j], env)
  }

  /** Edge `j` is the last edge of the step that decodes to its name. */
  predicate LastOfItsName(step: WalkerStep, j: nat, env: Collaborators)
    requires j < |step.dependencies|
  {
    forall j' :: j < j' < |step.dependencies| ==> NameOf(step.dependencies[j'], env) != NameOf(step.dependencies[j], env)
  }

  // ---------------------------------------------------------------------------
  // The object one step yields
  // ---------------------------------------------------------------------------

  /**
   * The keys are the decoded names of the edges, each once: the names that are
   * array indices first, in ascending order, then the others in the order of
   * their first edge.
   */
  lemma BuildKeys(step: WalkerStep, opts: LicenseCheckOptions, env: Collaborators)
    ensures forall k :: k in Keys(Build(step, opts, env)) <==> k in EdgeNames(step, env)
    ensures ValidKeys(Keys(Build(step, opts, env)))
    ensures NonIndexKeys(Keys(Build(step, opts, env))) == NonIndexKeys(FirstOccurrences(EdgeNames(step, env)))
  {
    FromEntriesKeys(BuiltEntries(step, opts, env));
    assert KeysOf(BuiltEntries(step, opts, env)) == EdgeNames(step, env);
  }

  /**
   * The node stored under a name is the one built from the last edge with that
   * name, and it is made of that edge's snapshot, the decoder's version, the
   * license of the manifest read at the install directory, and the edge's own
   * recursive result, attached only when it is not empty.
   */
  lemma BuiltNodeUnderName(step: WalkerStep, j: nat, opts: LicenseCheckOptions, env: Collaborators)
    requires j < |step.dependencies| && LastOfItsName(step, j, env)
    ensures
      var dep := step.dependencies[j];
      var node := NodeFor(dep, opts, env);
      var dir := InstallDir(opts, env, dep.depPath, NameOf(dep, env));
      var subdeps := Build(dep.next, opts, env);
      && Get(Build(step, opts, env), NameOf(dep, env)) == Some(node)
      && (node.dev == Some(true) <==> dep.pkgSnapshot.dev == Some(JsBool(true)))
      && (node.dev == Some(false) <==> dep.pkgSnapshot.dev != Some(JsBool(true)))
      && node.integrity == dep.pkgSnapshot.resolution.integrity
      && node.version == Some(env.nameVerFromPkgSnapshot(dep.depPath, dep.pkgSnapshot).version)
      && node.licenseInfo == Some(env.parseLicense(env.safeReadProjectManifestOnly(dir).GetOr(Empty()), dir))
      && (node.dependencies.Some? <==> Keys(subdeps) != [])
      && (node.requiresMap.Some? <==> Keys(subdeps) != [])
      && (node.dependencies.Some? ==> node.dependencies.value == subdeps && node.requiresMap.value == RequiresOf(subdeps))
  {
    var pairs := BuiltEntries(step, opts, env);
    FromEntriesLastWins(pairs, j);
  }

  /** A JavaScript-truthy flag that is not the boolean `true` does not make a node `dev`. */
  lemma TruthyDevFlagIsNotDev(dep: LockedDependency, opts: LicenseCheckOptions, env: Collaborators)
    requires dep.pkgSnapshot.dev.Some? && Truthy(dep.pkgSnapshot.dev.value)
    requires dep.pkgSnapshot.dev.value != JsBool(true)
    ensures NodeFor(dep, opts, env).dev == Some(false)
  {
  }

  /** Without two edges of one name, the object holds one node per edge, each under its edge's name. */
  lemma BuildWithDistinctNames(step: WalkerStep, opts: LicenseCheckOptions, env: Collaborators)
    requires DistinctNames(step, env)
    ensures |Keys(Build(step, opts, env))| == |step.dependencies|
    ensures forall i :: 0 <= i < |step.dependencies| ==>
              Get(Build(step, opts, env), NameOf(step.dependencies[i], env)) == Some(NodeFor(step.dependencies[i], opts, env))
  {
    var pairs := BuiltEntries(step, opts, env);
    assert KeysOf(pairs) == EdgeNames(step, env);
    FromEntriesDistinct(pairs);
    forall i | 0 <= i < |step.dependencies|
      ensures Get(Build(step, opts, env), NameOf(step.dependencies[i], env)) == Some(NodeFor(step.dependencies[i], opts, env))
    {
      assert pairs[i] == Entry(NameOf(step.dependencies[i], env), NodeFor(step.dependencies[i], opts, env));
    }
  }

  /**
   * When the edge names are distinct and already in the order JavaScript lists
   * keys in (array indices first, ascending), the object holds one node per
   * edge, in edge order.
   */
  lemma BuildInEdgeOrder(step: WalkerStep, opts: LicenseCheckOptions, env: Collaborators)
    requires ValidKeys(EdgeNames(step, env))
    ensures Build(step, opts, env) == Object(BuiltEntries(step, opts, env))
  {
    var pairs := BuiltEntries(step, opts, env);
    assert KeysOf(pairs) == EdgeNames(step, env);
    FromEntriesInOrder(pairs);
  }

  /** Every node stored comes from one edge of the step, under that edge's name. */
  lemma BuildFromEdges(step: WalkerStep, opts: LicenseCheckOptions, env: Collaborators)
    ensures forall i :: 0 <= i < |Build(step, opts, env).entries| ==>
              exists j :: 0 <= j < |step.dependencies| &&
                Build(step, opts, env).entries[i] == Entry(NameOf(step.dependencies[j], env), NodeFor(step.dependencies[j], opts, env))
  {
    var pairs := BuiltEntries(step, opts, env);
    FromEntriesValues(pairs);
    var r := Build(step, opts, env);
    forall i | 0 <= i < |r.entries|
      ensures exists j :: 0 <= j < |step.dependencies| &&
                r.entries[i] == Entry(NameOf(step.dependencies[j], env), NodeFor(step.dependencies[j], opts, env))
    {
      assert r.entries[i] in r.entries;
      var j :| 0 <= j < |pairs| && pairs[j] == r.entries[i];
    }
  }

  /** The edge that entry `i` of a step's object was built from. */
  lemma EdgeOfEntry(step: WalkerStep, opts: LicenseCheckOptions, env: Collaborators, i: nat) returns (j: nat)
    requires i < |Build(step, opts, env).entries|
    ensures j < |step.dependencies|
    ensures Build(step, opts, env).entries[i] == Entry(NameOf(step.dependencies[j], env), NodeFor(step.dependencies[j], opts, env))
  {
    BuildFromEdges(step, opts, env);
    j :| 0 <= j < |step.dependencies| &&
      Build(step, opts, env).entries[i] == Entry(NameOf(step.dependencies[j], env), NodeFor(step.dependencies[j], opts, env));
  }

  // ---------------------------------------------------------------------------
  // The shape of every node of the tree
  // ---------------------------------------------------------------------------

  /**
   * The shape of every node the builder makes, at every depth: `version`,
   * `licenseInfo` and `dev` are set; `dependencies` and `requires` are both
   * present or both absent; when present, `dependencies` is not empty,
   * `requires` is its projection onto versions, every `requires` value is a
   * string, and every child has the same shape.
   */
  predicate WellShaped(node: LicenseComplianceNode) {
    && node.version.Some? && node.licenseInfo.Some? && node.dev.Some?
    && (node.dependencies.Some? <==> node.requiresMap.Some?)
    && (node.dependencies.Some? ==>
          var children := node.dependencies.value;
          && |children.entries| > 0
          && node.requiresMap.value == RequiresOf(children)
          && (forall k :: k in Keys(children) ==> Get(node.requiresMap.value, k).value.Some?)
          && forall i :: 0 <= i < |children.entries| ==> WellShaped(children.entries[i].value))
  }

  lemma {:induction false} NodeForWellShaped(dep: LockedDependency, opts: LicenseCheckOptions, env: Collaborators)
    ensures WellShaped(NodeFor(dep, opts, env))
    decreases dep, 1
  {
    var subdeps := Build(dep.next, opts, env);
    BuildWellShaped(dep.next, opts, env);
    if |subdeps.entries| > 0 {
      forall k | k in Keys(subdeps)
        ensures Get(RequiresOf(subdeps), k).value.Some?
      {
        var i :| 0 <= i < |subdeps.entries| && Keys(subdeps)[i] == k;
        assert WellShaped(subdeps.entries[i].value);
      }
    }
  }

  /** Every node of the object a step yields is well shaped, all the way down. */
  lemma {:induction false} BuildWellShaped(step: WalkerStep, opts: LicenseCheckOptions, env: Collaborators)
    ensures forall i :: 0 <= i < |Build(step, opts, env).entries| ==> WellShaped(Build(step, opts, env).entries[i].value)
    decreases step, 0
  {
    var r := Build(step, opts, env);
    forall i | 0 <= i < |r.entries|
      ensures WellShaped(r.entries[i].value)
    {
      var j := EdgeOfEntry(step, opts, env, i);
      NodeForWellShaped(step.dependencies[j], opts, env);
    }
  }

  // ---------------------------------------------------------------------------
  // Depth: one level of the tree per level of the walk
  // ---------------------------------------------------------------------------

  function Max(a: nat, b: nat): nat {
    if a < b then b else a
  }

  /** How many `next()` calls deep the walk from `step` goes. */
  function StepDepth(step: WalkerStep): nat
    decreases step, |step.dependencies| + 1
  {
    EdgesDepth(step, |step.dependencies|)
  }

  function EdgesDepth(step: WalkerStep, n: nat): nat
    requires n <= |step.dependencies|
    decreases step, n
  {
    if n == 0 then 0 else Max(EdgesDepth(step, n - 1), 1 + StepDepth(step.dependencies[n - 1].next))
  }

  /** How many levels of `dependencies` hang below a node. */
  function NodeDepth(node: LicenseComplianceNode): nat
    decreases node, 0
  {
    match node.dependencies
    case None => 0
    case Some(children) => EntriesDepth(children, |children.entries|)
  }

  function EntriesDepth(r: Record<LicenseComplianceNode>, n: nat): nat
    requires n <= |r.entries|
    decreases r, n
  {
    if n == 0 then 0 else Max(EntriesDepth(r, n - 1), 1 + NodeDepth(r.entries[n - 1].value))
  }

  /** How many levels deep an object of nodes goes. */
  function TreeDepth(r: Record<LicenseComplianceNode>): nat {
    EntriesDepth(r, |r.entries|)
  }

  /** No level of the walk has two edges of one name. */
  predicate DistinctNamesThroughout(step: WalkerStep, env: Collaborators)
    decreases step
  {
    && DistinctNames(step, env)
    && forall i :: 0 <= i < |step.dependencies| ==> DistinctNamesThroughout(step.dependencies[i].next, env)
  }

  /**
   * Every edge's continuation is walked once and becomes one level of the tree:
   * when no level has two edges of one name, the tree is exactly as deep as the walk.
   */
  lemma {:induction false} BuildDepth(step: WalkerStep, opts: LicenseCheckOptions, env: Collaborators)
    requires DistinctNamesThroughout(step, env)
    ensures TreeDepth(Build(step, opts, env)) == StepDepth(step)
    decreases step, 1
  {
    var r := Build(step, opts, env);
    BuildDepthBound(step, opts, env);
    BuildWithDistinctNames(step, opts, env);
    forall j | 0 <= j < |step.dependencies|
      ensures 1 + StepDepth(step.dependencies[j].next) <= TreeDepth(r)
    {
      var dep := step.dependencies[j];
      var node := NodeFor(dep, opts, env);
      assert Get(r, NameOf(dep, env)) == Some(node);
      var i := IndexOf(r.entries, NameOf(dep, env));
      assert r.entries[i].value == node;
      NodeForDepth(dep, opts, env);
      EntriesDepthAtLeast(r, |r.entries|, i);
    }
    EdgesDepthAtMost(step, |step.dependencies|, TreeDepth(r));
  }

  lemma {:induction false} NodeForDepth(dep: LockedDependency, opts: LicenseCheckOptions, env: Collaborators)
    requires DistinctNamesThroughout(dep.next, env)
    ensures NodeDepth(NodeFor(dep, opts, env)) == StepDepth(dep.next)
    decreases dep, 2
  {
    BuildDepth(dep.next, opts, env);
  }

  lemma {:induction false} EdgesDepthAtLeast(step: WalkerStep, n: nat, j: nat)
    requires j < n <= |step.dependencies|
    ensures 1 + StepDepth(step.dependencies[j].next) <= EdgesDepth(step, n)
    decreases n
  {
    if j < n - 1 {
      EdgesDepthAtLeast(step, n - 1, j);
    }
  }

  lemma {:induction false} EntriesDepthAtLeast(r: Record<LicenseComplianceNode>, n: nat, i: nat)
    requires i < n <= |r.entries|
    ensures 1 + NodeDepth(r.entries[i].value) <= EntriesDepth(r, n)
    decreases n
  {
    if i < n - 1 {
      EntriesDepthAtLeast(r, n - 1, i);
    }
  }

  lemma {:induction false} EdgesDepthAtMost(step: WalkerStep, n: nat, bound: nat)
    requires n <= |step.dependencies|
    requires forall j :: 0 <= j < n ==> 1 + StepDepth(step.dependencies[j].next) <= bound
    ensures EdgesDepth(step, n) <= bound
    decreases n
  {
    if n > 0 {
      EdgesDepthAtMost(step, n - 1, bound);
    }
  }

  lemma {:induction false} EntriesDepthAtMost(r: Record<LicenseComplianceNode>, n: nat, bound: nat)
    requires n <= |r.entries|
    requires forall i :: 0 <= i < n ==> 1 + NodeDepth(r.entries[i].value) <= bound
    ensures EntriesDepth(r, n) <= bound
    decreases n
  {
    if n > 0 {
      EntriesDepthAtMost(r, n - 1, bound);
    }
  }

  /** With repeated names the overwritten subtrees are lost, so the tree is never deeper than the walk. */
  lemma {:induction false} BuildDepthBound(step: WalkerStep, opts: LicenseCheckOptions, env: Collaborators)
    ensures TreeDepth(Build(step, opts, env)) <= StepDepth(step)
    decreases step, 1
  {
    var r := Build(step, opts, env);
    forall i | 0 <= i < |r.entries|
      ensures 1 + NodeDepth(r.entries[i].value) <= StepDepth(step)
    {
      var j := EdgeOfEntry(step, opts, env, i);
      NodeForDepthBound(step.dependencies[j], opts, env);
      EdgesDepthAtLeast(step, |step.dependencies|, j);
    }
    EntriesDepthAtMost(r, |r.entries|, StepDepth(step));
  }

  lemma {:induction false} NodeForDepthBound(dep: LockedDependency, opts: LicenseCheckOptions, env: Collaborators)
    ensures NodeDepth(NodeFor(dep, opts, env)) <= StepDepth(dep.next)
    decreases dep, 2
  {
    BuildDepthBound(dep.next, opts, env);
  }

  // ---------------------------------------------------------------------------
  // The tree lockfileToData assembles
  // ---------------------------------------------------------------------------

  /** The importer ids of the walkers, in walker order. */
  function ImporterIds(walkers: seq<ImporterWalker>): (ids: seq<string>)
    ensures |ids| == |walkers|
  {
    seq(|walkers|, i requires 0 <= i < |walkers| => walkers[i].importerId)
  }

  /**
   * The synthetic root: `dev` is false, `name`, `version`, `integrity` and
   * `licenseInfo` are unset, `install`, `remove` and `metadata` are empty; its
   * `dependencies` holds one entry per importer id (array-index ids first, in
   * ascending order, the others in walker order), and its `requires` maps every
   * one of them to the placeholder version "0.0.0".
   */
  lemma RootShape(lockfile: Lockfile, opts: LicenseCheckOptions, env: Collaborators)
    ensures
      var tree := TreeOf(lockfile, opts, env);
      var walkers := ImporterWalkers(lockfile, opts, env);
      && tree.root.dev == Some(false)
      && tree.name.None? && tree.root.version.None? && tree.root.integrity.None? && tree.root.licenseInfo.None?
      && tree.install == [] && tree.remove == [] && Keys(tree.metadata) == []
      && tree.root.dependencies.Some? && tree.root.requiresMap.Some?
      && (forall k :: k in Keys(tree.root.dependencies.value) <==> k in ImporterIds(walkers))
      && NonIndexKeys(Keys(tree.root.dependencies.value)) == NonIndexKeys(FirstOccurrences(ImporterIds(walkers)))
      && Keys(tree.root.requiresMap.value) == Keys(tree.root.dependencies.value)
      && forall k :: k in Keys(tree.root.requiresMap.value) ==> Get(tree.root.requiresMap.value, k) == Some(Some(ImporterVersion))
  {
    var walkers := ImporterWalkers(lockfile, opts, env);
    var pairs := ImporterEntries(walkers, opts, env);
    FromEntriesKeys(pairs);
    assert KeysOf(pairs) == ImporterIds(walkers);
    ImporterEntriesVersions(walkers, opts, env);
  }

  /** Every importer entry carries the placeholder version. */
  lemma ImporterEntriesVersions(walkers: seq<ImporterWalker>, opts: LicenseCheckOptions, env: Collaborators)
    ensures forall k :: k in Keys(FromEntries(ImporterEntries(walkers, opts, env))) ==>
              Get(FromEntries(ImporterEntries(walkers, opts, env)), k).value.version == Some(ImporterVersion)
  {
    var pairs := ImporterEntries(walkers, opts, env);
    var dependencies := FromEntries(pairs);
    FromEntriesValues(pairs);
    forall k | k in Keys(dependencies)
      ensures Get(dependencies, k).value.version == Some(ImporterVersion)
    {
      var i := IndexOf(dependencies.entries, k);
      var e := dependencies.entries[i];
      assert e in dependencies.entries;
      var j :| 0 <= j < |pairs| && pairs[j] == e;
      assert e.value == ImporterNode(Build(walkers[j].step, opts, env));
    }
  }

  /** When the walker yields exactly one walker per importer of the lockfile, in order, the root has exactly the lockfile's importers. */
  lemma OneEntryPerImporter(lockfile: Lockfile, opts: LicenseCheckOptions, env: Collaborators)
    requires ImporterIds(ImporterWalkers(lockfile, opts, env)) == Keys(lockfile.importers)
    ensures TreeOf(lockfile, opts, env).root.dependencies.Some?
    ensures Keys(TreeOf(lockfile, opts, env).root.dependencies.value) == Keys(lockfile.importers)
  {
    var walkers := ImporterWalkers(lockfile, opts, env);
    var pairs := ImporterEntries(walkers, opts, env);
    assert KeysOf(pairs) == ImporterIds(walkers);
    FromEntriesInOrder(pairs);
  }

  /**
   * The entry of an importer is `{dependencies, requires, version: "0.0.0"}`
   * around what the builder made of its walk: unlike a package node, it keeps
   * `dependencies` and `requires` even when they are empty, and has no `dev`.
   */
  lemma ImporterEntryUnderId(lockfile: Lockfile, j: nat, opts: LicenseCheckOptions, env: Collaborators)
    requires j < |ImporterWalkers(lockfile, opts, env)|
    requires forall j' :: j < j' < |ImporterWalkers(lockfile, opts, env)| ==>
               ImporterWalkers(lockfile, opts, env)[j'].importerId != ImporterWalkers(lockfile, opts, env)[j].importerId
    ensures
      var walker := ImporterWalkers(lockfile, opts, env)[j];
      var tree := TreeOf(lockfile, opts, env);
      var importerDeps := Build(walker.step, opts, env);
      && tree.root.dependencies.Some?
      && Get(tree.root.dependencies.value, walker.importerId).Some?
      && var entry := Get(tree.root.dependencies.value, walker.importerId).value;
      && entry.version == Some(ImporterVersion)
      && entry.dependencies == Some(importerDeps)
      && entry.requiresMap == Some(RequiresOf(importerDeps))
      && entry.dev.None? && entry.integrity.None? && entry.licenseInfo.None?
  {
    var walkers := ImporterWalkers(lockfile, opts, env);
    FromEntriesLastWins(ImporterEntries(walkers, opts, env), j);
  }

  // ---------------------------------------------------------------------------
  // The call to an undefined function at line 157
  // ---------------------------------------------------------------------------

  /** Collaborators under which the walk yields a single importer "." with no dependencies. */
  function OneImporterCollaborators(): Collaborators {
    Collaborators(
      nameVerFromPkgSnapshot := (depPath, snapshot) => NameVer(depPath, "1.0.0"),
      depPathToFilename := depPath => depPath,
      join := parts => "",
      safeReadProjectManifestOnly := dir => None,
      parseLicense := (manifest, dir) => LicenseInfo(None, None),
      lockfileWalkerGroupImporterSteps := (lockfile, ids, fields) => [ImporterWalker(".", WalkerStep([]))])
  }

  /**
   * A lockfile with one importer: as written, `lockfileToData` throws a
   * ReferenceError; with the builder at line 157 it yields a tree whose root
   * holds that importer.
   */
  lemma AsWrittenThrowsOnOneImporter()
    ensures
      var lockfile := Lockfile(Object([Entry(".", ProjectSnapshot(Empty()))]), Empty());
      var opts := LicenseCheckOptions(None, "/project", "node_modules/.pnpm");
      var env := OneImporterCollaborators();
      && LockfileToDataAsWritten(lockfile, opts, env) == Failure(UndefinedBuilderError)
      && TreeOf(lockfile, opts, env).root.dependencies.Some?
      && Keys(TreeOf(lockfile, opts, env).root.dependencies.value) == ["."]
  {
    var lockfile := Lockfile(Object([Entry(".", ProjectSnapshot(Empty()))]), Empty());
    var opts := LicenseCheckOptions(None, "/project", "node_modules/.pnpm");
    var env := OneImporterCollaborators();
    assert Keys(lockfile.importers) == ["."];
    assert ImporterIds(ImporterWalkers(lockfile, opts, env)) == ["."];
    OneEntryPerImporter(lockfile, opts, env);
  }
}
