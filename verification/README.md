# pubgrub-crates-benchmark: the harness around two resolvers, in Dafny

The benchmark runs two dependency resolvers, pubgrub and cargo's own, over a
snapshot of the crates.io index and compares what they say. This project
models the logic around the resolvers and proves properties of it. The
resolvers themselves are not modelled. The model covers four parts:

- **Canonical records** (`index_data.dfy`, module `IndexData`). A raw index
  record is turned into a `Dependency` or a `Version`. Features are sorted,
  dependencies are sorted by package name, and any parse failure fails the
  whole record. The serialized form always writes the names and the version,
  and omits every other field that holds its default value.
- **Building the registry** (`read_index.dfy`, module `ReadIndex`).
  - `read_index` keeps the crates that pass a name filter and the versions
    that convert and pass a version filter. It builds
    `name -> (version -> record)` and derives cargo's summary map from it.
  - `read_test_file` builds the same two maps from a list of records that are
    already canonical, with no filter and no conversion, by an insert loop; a
    later record overwrites an earlier one with the same name and version.
- **The cargo adapter** (`cargo_resolver.dfy`, module `CargoResolver`).
  - `Registry::query` hands cargo the stored versions of a name in ascending
    order, filtered by the dependency only in `Exact` mode.
  - The other `Registry` methods are trivial.
  - A canonical dependency is translated into cargo's `Dependency`.
- **The differential test** (`differential.dfy`, module `Differential`).
  - Parsing a case's file name `<name>@<version>.ron`.
  - The verdict `check` that compares the two resolvers on one root.
  - The delta-debugging loop that removes records one at a time while the
    verdict keeps failing.

Supporting modules:

- `Wrappers`: `Option` and `Result`.
- `Semver`: versions as `(major, minor, patch)` with their order, version
  requirements as lists of comparators, and the abstract parsers.
- `Sorting`: a sort by string key, proved sorted and a permutation.

Parsing a version or a requirement, a requirement matching a version, cargo's
summary conversion and the resolvers' outcomes are parameters of the model:
functions or values passed in. `None` stands for a parse error or a panic.

## Model

| member | source | states |
|---|---|---|
| `Sorting.SortBy` | src/index_data.rs:41 | the result is sorted by the key and is a permutation of the input |
| `Sorting.SortedStringsUnique` | src/index_data.rs:41 | two sorted lists of strings with the same multiset are equal, so an unstable sort of features has only one possible outcome |
| `IndexData.DependencyFromRaw` | src/index_data.rs:35-51 | fails exactly when the requirement does not parse, with that requirement text as the error; otherwise the name, package name, kind, optional and default-features are copied unchanged, the requirement is the parsed one, and the features are sorted and a permutation of the raw features |
| `IndexData.FeatureOrderIrrelevant` | src/index_data.rs:36-41 | two raw dependencies that differ only in the order of their features convert to the same dependency |
| `IndexData.ConvertDependencies` | src/index_data.rs:76-80 | collecting into `Result<Vec>`: succeeds iff every dependency converts, elementwise in order; otherwise the error is the first failing dependency's |
| `IndexData.FeatureTable` | src/index_data.rs:86-96 | the feature table has exactly the raw feature names as keys, each mapped to the set of its raw entries |
| `IndexData.VersionFromRaw` | src/index_data.rs:75-100 | all or nothing: succeeds iff every dependency converts and the version parses; the first failing dependency's error comes first, then the version's; on success name, links and yanked are copied, the feature table is kept, and the dependencies are sorted by package name and a permutation of the converted ones |
| `IndexData.SerializeDependency` | src/index_data.rs:11-30 | name and package name are always written; requirement, features, default-features, kind and optional are omitted exactly when they equal `*`, `[]`, `false`, `Normal` and `false` |
| `IndexData.DependencyRoundTrip` | src/index_data.rs:11-30 | reading back a written dependency, with omitted fields filled by their defaults, gives the same dependency |
| `IndexData.DependenciesRoundTrip` | src/index_data.rs:58-60 | the same for a list of dependencies |
| `IndexData.SerializeVersion` | src/index_data.rs:54-70 | name and version are always written; deps, features, links and yanked are omitted exactly when they are empty, empty, `None` and `false` |
| `IndexData.VersionRoundTrip` | src/index_data.rs:54-70 | reading back a written version gives the same version, and writing it again gives the same fields |
| `ReadIndex.CargoMap` | src/read_index.rs:34-44 | the summary map exists iff every record converts; it then has exactly the record map's names and versions, each holding its record's summary |
| `ReadIndex.KeepAcceptedMembers` | src/read_index.rs:27-28 | a record is kept iff it converted successfully and passes the version filter |
| `ReadIndex.RejectedVersionIgnored` | src/read_index.rs:27-28 | a version that fails to convert or is filtered out is dropped silently: removing it changes nothing |
| `ReadIndex.CollectByVers` | src/read_index.rs:29-30 | the map's keys are exactly the records' versions, and each key holds the last record with that version |
| `ReadIndex.VersionLookupEntries` | src/read_index.rs:24-30 | a crate's versions are exactly those of its records that convert and pass the filter, each stored under its own version |
| `ReadIndex.ReadIndexCrates` | src/read_index.rs:18-33 | a name is present iff some crate has it and it passes the name filter; its map is the version map of a crate with that name (the last one, should the name repeat) |
| `ReadIndex.ReadIndexEntries` | src/read_index.rs:21-30 | every stored crate passed the name filter, and every stored record passed the version filter and is stored under its own version |
| `ReadIndex.NothingAcceptedNoVersions` | src/read_index.rs:24-30 | a crate none of whose records converts and passes the filter gets an empty version map |
| `ReadIndex.ReadIndexKeepsEmptyCrate` | src/read_index.rs:22-31 | a crate that passes the name filter is present even when all its versions are dropped, with an empty map |
| `ReadIndex.ReadIndex` | src/read_index.rs:9-47 | when the summary map exists it has the same names and versions as the record map |
| `ReadIndex.ReadTestFile` | src/read_index.rs:50-78 | the stored (name, version) pairs are exactly those of the input records; each holds the last record with that pair; the summary map is derived all or nothing |
| `Semver.LeastExists` | src/cargo_resolver.rs:27 | every non-empty set of versions has a least one, so walking a version map in ascending order is well defined |
| `CargoResolver.Query` | src/cargo_resolver.rs:19-44 | always `Ready(Ok(()))`; nothing for an absent name; otherwise candidates in strictly ascending version order, each the stored record; a stored version is emitted iff the mode is not `Exact` or the dependency matches it |
| `CargoResolver.DescribeSource` | src/cargo_resolver.rs:46-48 | the description is empty |
| `CargoResolver.IsReplaced` | src/cargo_resolver.rs:50-52 | no source is replaced |
| `CargoResolver.BlockUntilReady` | src/cargo_resolver.rs:54-56 | never fails |
| `CargoResolver.DepKindBijection` | src/cargo_resolver.rs:97-101 | Normal, Dev and Build map to Normal, Development and Build, and the mapping is one to one |
| `CargoResolver.FromIndexDependencyAsWritten` | src/cargo_resolver.rs:87-105 | as written: cargo's package is `name`, and `package_name` becomes the explicit name exactly when the two differ; requirement, features, default-features, optional and kind carry over, against the synthetic registry |
| `CargoResolver.FromIndexDependency` | src/cargo_resolver.rs:87-105 | corrected: cargo's package is `package_name`, the name used in the manifest is `name`, and it is explicit exactly when the two differ; the other fields carry over as above |
| `CargoResolver.AsWrittenSwapsRenamedDependency` | src/cargo_resolver.rs:89-93 | the written conversion equals the corrected one iff the dependency is not renamed; a renamed one is looked up under the wrong package |
| `CargoResolver.AsWrittenRenameExample` | src/cargo_resolver.rs:89-93 | `json` renaming `serde_json` becomes a cargo dependency on package `json` |
| `Differential.SplitOnce` | src/tests.rs:6 | fails iff there is no `@`; otherwise the text before the first `@` and the text after it |
| `Differential.StripSuffix` | src/tests.rs:7 | succeeds iff the text ends with the suffix, returning what precedes it |
| `Differential.CaseFromFileName` | src/tests.rs:5-9 | fails without an `@`; a result is the name before the first `@` and the parsed version between it and `.ron` |
| `Differential.CaseFromFileNameRoundTrip` | src/tests.rs:5-9 | for a name without `@`, reading `<name>@<version>.ron` gives back the name and the parsed version |
| `Differential.Check` | src/tests.rs:33-75 | an inconsistent solution or an error other than no-solution fails; without cargo the verdict depends only on pubgrub; with cargo it passes iff both agree on solvability or cargo reported a cycle |
| `Differential.CheckPassMeansAgreement` | src/tests.rs:41-72 | a passing root had an acceptable pubgrub outcome, and cargo, when run without a cycle error, agreed on solvability |
| `Differential.CyclicNeverDisagrees` | src/tests.rs:64-72 | a cargo error starting with "cyclic package dependency" never fails a root on its own |
| `Differential.CratesDataFromFile` | src/tests.rs:11-30 | the record map has exactly the listed pairs, each holding the last such record; the summary map exists iff every record converts, with the same keys, each holding its record's summary |
| `Differential.Rotate` | src/tests.rs:115 | the position tried lies within the data |
| `Differential.RotateUnrotate` | src/tests.rs:114-115 | every position is tried in a pass |
| `Differential.RotateInjective` | src/tests.rs:114-115 | no position is tried twice in a pass |
| `Differential.RemoveAt` | src/tests.rs:116-117 | removing an element shortens the data by one and shifts the later elements down |
| `Differential.EmbeddingRemove` | src/tests.rs:116-117 | removing an element keeps the data a subsequence of the original |
| `Differential.ShrinksExtend` | src/tests.rs:131-135 | accepting a removal whose result fails the check extends a valid shrinking history |
| `Differential.ShrinksLength` | src/tests.rs:113-139 | each accepted step removes exactly one record |
| `Differential.Minimize` | src/tests.rs:112-139 | terminates; the result comes from the input by single removals, each of which fails the check; it is a subsequence of the input; it is the input or fails the check; removing any one of its records passes the check (1-minimal) |

## Left out

- The resolvers and the code around them are not part of this model: pubgrub's `resolve`, `Index::check`, `Index::reset`, `Index::new`, `new_bucket`, the `make_*_ron_file` writers, and cargo's `resolve` (src/cargo_resolver.rs:59-85). Their outcomes are parameters of `Differential.Check`, and the whole pipeline is the `check` parameter of `Differential.Minimize`.
- `From<&index_data::Version> for Summary` (src/cargo_resolver.rs:107-135) is the `summarize` parameter; `None` stands for its error or for the `unwrap` panic.
- Semver parsing and requirement matching are parameters. A version is `(major, minor, patch)`: the pre-release and build parts are dropped. So two versions that differ only there, such as `1.0.0-beta` and `1.0.0`, are one key in the model's registry, the later record replacing the other, and `CargoResolver.Query` does not order pre-releases before their release as semver does.
- `IndexData.DependencyFromRaw`, `IndexData.VersionFromRaw`: the error payload (the text that failed and which field it was) is the model's own; `semver::Error` carries the kind and position of the failure instead. Every caller discards the error (`.ok()` at src/read_index.rs:27), so no behaviour depends on it.
- `ReadIndex.ReadIndexCrates`: when a crate name appears twice the model keeps the later crate. The source collects a parallel iterator into a `HashMap` and defines no such order; the git index has one file per name, so the case does not arise there.
- File-system access, RON encoding, timing, logging and interning are left out. The serialized form is modelled as a record of optional fields, with an omitted field read back as its default.
- Parallel iteration over the index is a sequence of crates. The `unwrap` on reading a crate file (src/read_index.rs:20) is an I/O failure and is not modelled.
- src/main.rs is not part of this model: its command line, thread pool, channel, CSV output and float timing are I/O and concurrency.
- The test drivers `named_from_files_pass_tests` and `all_vers_in_files_pass_tests` (src/tests.rs:77-99, src/tests.rs:161-185) and the final re-check after minimizing (src/tests.rs:140-158) are left out. They loop over files and write reports; their logic per case is `Check`.
- `CargoResolver.Query`: the callback receives cargo summaries converted from the records; the model emits the records.
- `IndexData.VersionFromRaw`: `sort_unstable_by_key` leaves the order of dependencies with equal package names unspecified. The model computes one such order, and its contract states only sortedness and permutation.
- `ReadIndex.ReadIndexKeepsEmptyCrate` requires distinct crate names, since the git index holds one file per name.
- `Differential.CratesDataFromFile`: `read_test_file` already `unwrap`s each summary conversion (src/read_index.rs:71), so a failing conversion would panic before this function builds its own map. The model does not model that panic, and returns the record map with the all-or-nothing summary map.
- Features of a dependency are sorted but not deduplicated, as in the code; the model does not deduplicate.

## Findings

| source | as written | input that shows it | evidently intended | confidence | as-written member | corrected member |
|---|---|---|---|---|---|---|
| src/cargo_resolver.rs:89-93 | cargo's `Dependency` is parsed from `value.name`, the name the dependent uses, and `value.package_name` is set as the explicit name in the manifest | a dependency written `json = { package = "serde_json" }` becomes a cargo dependency on package `json`, so `query` looks up `json` instead of `serde_json` | parse from `package_name` and set `name` as the explicit name when the two differ | high, not executed | `CargoResolver.FromIndexDependencyAsWritten`, `CargoResolver.AsWrittenRenameExample` | `CargoResolver.FromIndexDependency` |
