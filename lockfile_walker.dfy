/**
 * What the lockfile walker hands to the license checker. The walker itself
 * (lockfile parsing, the `include` filter, how steps are produced) is not part
 * of this model; only the shape of its output is.
 */
module LockfileWalker {
  import opened Wrappers
  import opened Records
  import opened LicenseTypes

  datatype Resolution = Resolution(integrity: Option<string>)

  /** A package snapshot; `dev` is whatever the lockfile holds there, if anything. */
  datatype PackageSnapshot = PackageSnapshot(dev: Option<JsValue>, resolution: Resolution)

  /**
   * One dependency edge. `next` is the step that the edge's `next()`
   * continuation returns: the walk of the edge's own dependencies.
   */
  datatype LockedDependency = LockedDependency(depPath: string, pkgSnapshot: PackageSnapshot, next: WalkerStep)

  datatype WalkerStep = WalkerStep(dependencies: seq<LockedDependency>)

  datatype ImporterWalker = ImporterWalker(importerId: string, step: WalkerStep)

  /** Which dependency fields of each importer take part in the walk. */
  datatype Include = Include(dependencies: bool, devDependencies: bool, optionalDependencies: bool)

  datatype ProjectSnapshot = ProjectSnapshot(specifiers: Record<string>)

  /**
   * A lockfile. The checker itself reads only the keys of `importers`; the
   * snapshots and `packages` are there for the walker.
   */
  datatype Lockfile = Lockfile(importers: Record<ProjectSnapshot>, packages: Record<PackageSnapshot>)
}
