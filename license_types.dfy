/**
 * The values the license checker builds and returns, after
 * packages/plugin-commands-licenses/src/types.ts. An optional member (`x?: T`)
 * is an `Option<T>`; a plain object used as a dictionary is a `Record<V>`.
 */
module LicenseTypes {
  import opened Wrappers
  import opened Records

  /**
   * The JSON values a manifest field or a snapshot flag may hold. Numbers are
   * integers here: JSON manifests and lockfiles carry no fractions the checker
   * looks at.
   */
  datatype JsValue =
    | JsNull
    | JsBool(b: bool)
    | JsNumber(n: int)
    | JsString(s: string)
    | JsArray(items: seq<JsValue>)
    | JsObject(members: Record<JsValue>)

  /** JavaScript truthiness of a value that is present. */
  predicate Truthy(v: JsValue) {
    match v
    case JsNull => false
    case JsBool(b) => b
    case JsNumber(n) => n != 0
    case JsString(s) => s != ""
    case JsArray(_) => true
    case JsObject(_) => true
  }

  /** A package manifest (`package.json`), as a plain object of fields. */
  type Manifest = Record<JsValue>

  datatype LicenseInfo = LicenseInfo(license: Option<string>, licenseFile: Option<string>)

  datatype PackageDetails = PackageDetails(name: string, version: string, path: string, manifest: Manifest)

  /**
   * One node of the compliance tree. Every member is optional here: `dev` is
   * declared as required, yet the importer entries the tree assembler stores
   * carry no `dev` member at all. `requiresMap` is the `requires` member
   * (`requires` is a keyword here).
   */
  datatype LicenseComplianceNode = LicenseComplianceNode(
    version: Option<string>,
    integrity: Option<string>,
    licenseInfo: Option<LicenseInfo>,
    requiresMap: Option<Record<Option<string>>>,
    dependencies: Option<Record<LicenseComplianceNode>>,
    dev: Option<bool>)

  /** `LicenseComplianceNode & { name?, install, remove, metadata }`: the node part and the extra members. */
  datatype LicenseComplianceTree = LicenseComplianceTree(
    root: LicenseComplianceNode,
    name: Option<string>,
    install: seq<string>,
    remove: seq<string>,
    metadata: Record<JsValue>)

  datatype LicenseCompliancePackage = LicenseCompliancePackage(name: string, version: string)

  datatype LicenseComplianceMetadata = LicenseComplianceMetadata(
    dependencies: int,
    devDependencies: int,
    optionalDependencies: int,
    totalDependencies: int)

  datatype LicenseComplianceReport = LicenseComplianceReport(
    licenses: Record<LicenseCompliancePackage>,
    metadata: LicenseComplianceMetadata)
}
