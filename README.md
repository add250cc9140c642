# License compliance tree of `pnpm licenses`, modelled in Dafny

This project models the core of the `licenses` command of pnpm, which lives in
`packages/plugin-commands-licenses/src/licenseChecker.ts`. The core turns the
steps of a lockfile walk into a compliance tree and then into a report:

- `lockfileToLicenseComplianceNode` walks one step recursively. Each dependency
  edge becomes a node with `dev`, `integrity`, `licenseInfo` and `version`. The
  edge's `next()` walk becomes the node's `dependencies`, with a `requires`
  projection beside it. Both are attached only when that walk produced
  something.
- `toRequires` projects an object of nodes onto their versions.
- `getPackageDetails` computes the install directory of a package and reads its
  manifest. A missing manifest becomes `{}`.
- `lockfileToData` wraps each importer's object as
  `{dependencies, requires, version: "0.0.0"}`. It then puts these entries under
  a synthetic root with fixed placeholder members.
- `licenseCheck` builds that tree and returns a report whose counters are all 0
  and whose `licenses` is empty. As written, building the tree throws for any
  lockfile whose walk yields an importer (see "## Findings"). The model's
  `licenseCheck` calls the corrected tree builder, so it always reaches the
  zeroed report.

Files:

- `wrappers.dfy` (`Wrappers`): `Option` and `Result`.
- `records.dfy` (`Records`): the JavaScript plain object used as a dictionary.
  Its keys come in the order `Object.keys` lists them:
  - first the array indices, in ascending numeric order. An array index is the
    canonical decimal numeral of an integer below 2^32 - 1, such as `"1"`;
  - then every other key, in the order it was first assigned.

  `o[k] = v` replaces the value of an existing key in place. A new key goes to
  the end, or, when it is an array index, just after the smaller array indices.
  `FromEntries` assigns a list of entries in turn with `o[k] = v`, as the
  checker's loops do. The objects have no prototype (see "## Left out").
- `license_types.dfy` (`LicenseTypes`): the types of `types.ts`. Optional
  members are `Option`s.
- `lockfile_walker.dfy` (`LockfileWalker`): what the lockfile walker hands
  over. A step is a list of edges, and each edge carries the step its `next()`
  returns.
- `license_checker.dfy` (`LicenseChecker`): the operations. `toRequires`,
  `lockfileToLicenseComplianceNode` and `lockfileToData` fill an object in a
  loop, so they are methods. Each is proved equal to a specification function
  (`RequiresOf`, `Build`, `TreeOf`). `getPackageDetails` is a function. The
  functions the code imports from other packages are the fields of a
  `Collaborators` value and stay uninterpreted.
- `compliance_proofs.dfy` (`ComplianceProofs`): what the tree looks like, for
  every walk and every behaviour of the collaborators.

The model follows the code as written, with one exception: the call at
`licenseChecker.ts:157` is modelled both as written and as corrected (see
"## Findings"). Two facts about the code shape the model:

- **Cycles.** The code recurses on every `next()` with no guard
  (`licenseChecker.ts:110`). The model's walk is an inductive datatype, so
  every walk it can express is finite, and the recursion has no guard either.
- **Report.** `licenseCheck` returns a constant, zeroed report and aggregates
  nothing (`licenseChecker.ts:85-95`).

## Model

| member | source | states |
|---|---|---|
| `Records.Empty` | packages/plugin-commands-licenses/src/licenseChecker.ts:106 | `{}` has no keys |
| `Records.Keys` | packages/plugin-commands-licenses/src/licenseChecker.ts:136 | `Object.keys(o)` lists the object's keys in JavaScript's order: no key twice, array indices first in ascending numeric order, then the other keys; one key per entry, in the entry order |
| `Records.Put` | packages/plugin-commands-licenses/src/licenseChecker.ts:129 | `o[k] = v`: afterwards `k` maps to `v` and every other key keeps its value. An existing key stays in its place; a new key is placed as `InsertKey` says |
| `Records.InsertKey` | packages/plugin-commands-licenses/src/licenseChecker.ts:129 | a new key makes the key list one longer, keeps it free of repeats and in JavaScript's order (array indices first, ascending), and adds the key after the other non-index keys unless it is an array index |
| `Records.ArrayIndexKeysComeFirst` | packages/plugin-commands-licenses/src/licenseChecker.ts:129 | assigning `"b"` and then `"1"` to `{}` gives the keys `["1", "b"]` |
| `Records.EnumerationOrderUnique` | packages/plugin-commands-licenses/src/licenseChecker.ts:129 | two key lists in JavaScript's order with the same keys and the same order of non-index keys are equal, so the order facts below fix the key order completely |
| `Records.Get` | packages/plugin-commands-licenses/src/licenseChecker.ts:137 | `o[k]` is present exactly when `k` is one of the object's keys, and is the value stored with it |
| `Records.Extensionality` | packages/plugin-commands-licenses/src/licenseChecker.ts:134-140 | two objects with the same keys in the same order and the same value under each key are the same object |
| `Records.FirstOccurrences` | packages/plugin-commands-licenses/src/licenseChecker.ts:107-129 | the ordered key list of repeated assignments holds each assigned key exactly once, and nothing else |
| `Records.FromEntriesKeys` | packages/plugin-commands-licenses/src/licenseChecker.ts:106-131 | assigning entries in turn into `{}` leaves exactly the assigned keys, each once. The array indices come first, in ascending order, and the other keys follow in the order of their first assignment |
| `Records.FromEntriesLastWins` | packages/plugin-commands-licenses/src/licenseChecker.ts:129 | the value under a key is that of its last assignment |
| `Records.FromEntriesDistinct` | packages/plugin-commands-licenses/src/licenseChecker.ts:106-131 | with no key assigned twice, the object has one key per assignment and holds each assigned value under its key |
| `Records.FromEntriesInOrder` | packages/plugin-commands-licenses/src/licenseChecker.ts:151-164 | when the keys are distinct and already in JavaScript's order, the object holds exactly the assigned entries, in order |
| `Records.FromEntriesValues` | packages/plugin-commands-licenses/src/licenseChecker.ts:106-131 | every entry of the object is one of the assigned entries |
| `LicenseChecker.GetPackageDetails` | packages/plugin-commands-licenses/src/licenseChecker.ts:34-59 | name and version come from the decoder; the path is `join(join(join(dir, virtualStoreDir), depPathToFilename(depPath), "node_modules"), name)`; the manifest is what the reader finds at that path, or `{}` when it finds nothing |
| `LicenseChecker.RequiresOf` | packages/plugin-commands-licenses/src/licenseChecker.ts:134-140 | the `requires` object has exactly the keys of the node object, in the same order, and maps each key to that node's `version`; `{}` gives `{}` |
| `LicenseChecker.ToRequires` | packages/plugin-commands-licenses/src/licenseChecker.ts:134-140 | the loop over `Object.keys` builds exactly the projection `RequiresOf` |
| `LicenseChecker.LockfileToLicenseComplianceNode` | packages/plugin-commands-licenses/src/licenseChecker.ts:102-132 | the recursive loop over the step's edges returns exactly `Build(step)`, one recursive call per edge |
| `LicenseChecker.LockfileToData` | packages/plugin-commands-licenses/src/licenseChecker.ts:145-179 | the loop over the importer walkers returns exactly `TreeOf(lockfile)`, with the builder called for each importer |
| `LicenseChecker.LockfileToDataAsWritten` | packages/plugin-commands-licenses/src/licenseChecker.ts:157 | as written, the call fails with a ReferenceError exactly when the walk yields at least one importer; otherwise it agrees with `TreeOf` |
| `LicenseChecker.LicenseCheck` | packages/plugin-commands-licenses/src/licenseChecker.ts:69-96 | with the tree built by the corrected `LockfileToData`, the report has no licenses and all four counters are 0 whatever the lockfile. As written, line 73 throws instead whenever the walk yields an importer (`LockfileToDataAsWritten`) |
| `ComplianceProofs.BuildKeys` | packages/plugin-commands-licenses/src/licenseChecker.ts:107-129 | the keys of a step's object are exactly the decoded names of its edges, each once. Names that are array indices come first, in ascending order; the others follow in the order of their first edge |
| `ComplianceProofs.BuiltNodeUnderName` | packages/plugin-commands-licenses/src/licenseChecker.ts:107-129 | the node under a name is the one built from the last edge with that name. Its `dev` is true exactly when the snapshot's `dev` is the boolean `true`. Its `integrity` is the snapshot's and its `version` is the decoder's. Its `licenseInfo` is `parseLicense` of the manifest read at the install directory. Its `dependencies` and `requires` are present exactly when the edge's own walk gave a non-empty object; they are then that object and its projection |
| `ComplianceProofs.TruthyDevFlagIsNotDev` | packages/plugin-commands-licenses/src/licenseChecker.ts:119 | a snapshot `dev` flag that is truthy but not the boolean `true` gives `dev: false` |
| `ComplianceProofs.BuildWithDistinctNames` | packages/plugin-commands-licenses/src/licenseChecker.ts:106-131 | when no two edges share a name, the object has one key per edge and holds each edge's node under its name |
| `ComplianceProofs.BuildInEdgeOrder` | packages/plugin-commands-licenses/src/licenseChecker.ts:106-131 | when the edge names are distinct and already in JavaScript's key order, the object holds one node per edge, in edge order |
| `ComplianceProofs.BuildFromEdges` | packages/plugin-commands-licenses/src/licenseChecker.ts:106-131 | every node in a step's object was built from one of that step's edges, under that edge's name |
| `ComplianceProofs.NodeForWellShaped` | packages/plugin-commands-licenses/src/licenseChecker.ts:110-128 | a node built for an edge is well shaped: version, license info and dev are set, `dependencies` and `requires` are both present or both absent, never empty, `requires` is the projection of `dependencies`, every `requires` value is a string, and all children are well shaped |
| `ComplianceProofs.BuildWellShaped` | packages/plugin-commands-licenses/src/licenseChecker.ts:102-132 | every node of a step's object is well shaped, at every depth |
| `ComplianceProofs.BuildDepth` | packages/plugin-commands-licenses/src/licenseChecker.ts:107-110 | when no level of the walk repeats a name, the tree is exactly as deep as the walk: each `next()` becomes one level |
| `ComplianceProofs.BuildDepthBound` | packages/plugin-commands-licenses/src/licenseChecker.ts:107-129 | in general the tree is never deeper than the walk; repeated names can only lose overwritten subtrees |
| `ComplianceProofs.RootShape` | packages/plugin-commands-licenses/src/licenseChecker.ts:149-176 | the root has `dev: false`; `name`, `version`, `integrity` and `licenseInfo` are unset; `install`, `remove` and `metadata` are empty. Its `dependencies` has one entry per importer id: array-index ids first, in ascending order, the others in walker order. Its `requires` maps every importer id to `"0.0.0"` |
| `ComplianceProofs.OneEntryPerImporter` | packages/plugin-commands-licenses/src/licenseChecker.ts:149-164 | when the walker yields one walker per key of `lockfile.importers`, in order, the root's entries are exactly those importers |
| `ComplianceProofs.ImporterEntryUnderId` | packages/plugin-commands-licenses/src/licenseChecker.ts:156-164 | an importer's entry is `{dependencies, requires, version: "0.0.0"}` around the builder's object for its walk; it keeps `dependencies` and `requires` even when they are empty and has no `dev` |
| `ComplianceProofs.AsWrittenThrowsOnOneImporter` | packages/plugin-commands-licenses/src/licenseChecker.ts:157 | for a lockfile with one importer `.`, the code as written throws, while the corrected call gives a root holding `.` |

## Left out

- Asynchrony: every `await` happens in sequence, so the model is sequential.
  Its statements keep the source's order: the recursive call comes before the
  package details are read (`licenseChecker.ts:110-111`).
- Failures of the collaborators. The file has no `try`/`catch`, so a throw or a
  rejected promise rejects the whole `licenseCheck`. This applies to
  `nameVerFromPkgSnapshot`, the walker and its `next()`,
  `safeReadProjectManifestOnly` and `parseLicense`
  (`licenseChecker.ts:109-116`, `149-157`). Here they are total functions, so
  that path is not modelled. The one failure that is modelled is the
  ReferenceError of line 157.
- The `console.log` loop of `licenseCheck` (`licenseChecker.ts:75-83`): it is
  debug output and does not affect the result.
- How the collaborators work: lockfile parsing, `lockfileWalkerGroupImporterSteps`
  and its `include` filtering, `nameVerFromPkgSnapshot`, `depPathToFilename`,
  the normalisation done by `path.join`, the file system reads of
  `safeReadProjectManifestOnly`, and `parseLicense` (`./utils` is not part of
  this model). They stay uninterpreted function parameters. The reader's
  `null` and `undefined` results are both `None`.
- `Records.Put`: the model's objects have no prototype. A key `"__proto__"`
  is stored as an ordinary key, whereas `o["__proto__"] = v` on `{}` runs the
  inherited setter and adds no key (an object value replaces the prototype, a
  string value is ignored), so such a name would be missing from the JSON
  output (`licenseChecker.ts:129`, `137`, `159`). `Records.Get` likewise does
  not find inherited names such as `constructor` on an object that lacks them
  as keys; the checker only reads keys that `Object.keys` listed
  (`licenseChecker.ts:137`), so that lookup never happens.
- Object identity. Nodes are values here. The source builds a fresh object for
  every occurrence of a package and shares none, so nothing is lost.
- The key order of fixed-shape objects (a node's own members, the root's
  members) in the serialised JSON. Only the order of dictionary keys is
  modelled.
- The difference between a member that holds `undefined` and a missing member.
  Both are `None`, as in the JSON output.
- Walks with a cycle. The walk is an inductive datatype, so a cyclic walk
  cannot be expressed. On one, the source would recurse without end.
- The walker step's `links` and `missing` members, which the core never reads.
- The lockfile's `packages` and each importer's `specifiers`. They are in the
  data model because the walker, which stays uninterpreted, works on them. The
  checker itself reads only the keys of `lockfile.importers`.
- JSON numbers are integers in `JsValue`: fractions and `NaN` are not
  represented. The checker never reads a number, and they would only reach the
  uninterpreted `parseLicense` or the `dev` flag, which is compared with `true`.
- The unused types of `types.ts`: `LicenseCheckResult`, `Result`,
  `LicensePredicate` and `PackageNamePredicate`.
- `packages/plugin-commands-licenses/test/index.ts`: it drives the command
  handler against fixtures on disk and a mocked registry.

## Findings

| source | as written | input that shows it | evidently intended | confidence | as-written member | corrected member |
|---|---|---|---|---|---|---|
| packages/plugin-commands-licenses/src/licenseChecker.ts:157 | calls `lockfileToAuditNode`, which the file neither defines nor imports, so `tsc` rejects the file and an untyped run throws a ReferenceError at the first importer | a lockfile with one importer `.` (`ComplianceProofs.AsWrittenThrowsOnOneImporter`) | call `lockfileToLicenseComplianceNode` on each importer's step | high; not executed | `LicenseChecker.LockfileToDataAsWritten` | `LicenseChecker.LockfileToData` |
