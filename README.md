# MSBuildRestoreUtility, modelled in Dafny

NuGet's `MSBuildRestoreUtility` turns the flat list of items an MSBuild evaluation emits into
restore specifications. Each item is a property bag with a `Type` property. `MSBuildRestoreUtility` does
three things:

- `GetDependencySpec` sorts the items. Restore-spec items become restore roots. Every other item
  with a non-empty `ProjectUniqueName` goes into that project's bucket.
- `GetPackageSpec` builds one `PackageSpec` per bucket around its single `ProjectSpec` item. The
  output type picks the strategy: UAP projects read project.json, every other project builds a
  base spec from the item. The metadata is then overwritten from the item.
- Dependencies are added from `ProjectReference` items (always) and from `FrameworkAssembly` and
  `Dependency` items (`NETCore` only). Two insert helpers refuse a name that is already present,
  ignoring case.

The model has three layers:

- `Text` and `MSBuildItems` hold the string helpers and the item bags.
- `ProjectModel`, `DependencyInsertion` and `RestoreSpec` define, as values, what each operation
  must produce, and prove the properties of those values.
- `MSBuildRestoreUtility` holds the imperative utility itself. `PackageSpec` and
  `DependencyGraphSpec` are classes whose fields the methods update in place. Each method is
  proved against the value-level definition it implements.

The library calls the utility makes are fields of a `Collaborators` value passed in:
`NuGetFramework.Parse`, `VersionRange.Parse`, `Path.GetFileNameWithoutExtension`,
`JsonPackageSpecReader.GetPackageSpec` and `PackageSpec.GetTargetFramework`. The framework parser,
the version-range parser and the project.json reader return `None` where the library call throws,
and the model turns that into an `Err`. The file-name stem and the target-framework lookup are
assumed not to throw; a `None` from the lookup means an entry not attached to the spec.

On these points the code's behaviour is easy to misread; the model follows the code:

- A framework-scoped insert is blocked by a global dependency of the same name, not only by one in
  that framework's list (`src/NuGet.Core/NuGet.Commands/RestoreCommand/Utility/MSBuildRestoreUtility.cs:170-173`).
- Two `ProjectSpec` items in one bucket are an error (`SingleOrDefault` throws). The model does not
  pick one of them (`src/NuGet.Core/NuGet.Commands/RestoreCommand/Utility/MSBuildRestoreUtility.cs:57`).
- Project references are never merged. `ProjectRestoreReference` has no value equality, so its hash
  set keeps one reference per `ProjectReference` item
  (`src/NuGet.Core/NuGet.ProjectModel/ProjectRestoreReference.cs:3-14`, `src/NuGet.Core/NuGet.Commands/RestoreCommand/Utility/MSBuildRestoreUtility.cs:103`).
- A bucket without a `ProjectSpec` item yields a null spec, and that null is still passed to
  `AddProject` (`src/NuGet.Core/NuGet.Commands/RestoreCommand/Utility/MSBuildRestoreUtility.cs:45-48`).
- The UAP strategy takes the project name from the file-name stem of `ProjectPath`. It never reads
  `ProjectName` (`src/NuGet.Core/NuGet.Commands/RestoreCommand/Utility/MSBuildRestoreUtility.cs:261`).

## Model

All source paths below are in the NuGet.Client repository.

| member | source | states |
|---|---|---|
| Text.Lower | src/NuGet.Core/NuGet.Commands/RestoreCommand/Utility/MSBuildRestoreUtility.cs:24 | `ToLowerInvariant`, defined character by character on ASCII letters; `Text.LowerAt` proves it keeps the length and lower-cases each position. |
| Text.EqualsIgnoreCase | src/NuGet.Core/NuGet.Commands/RestoreCommand/Utility/MSBuildRestoreUtility.cs:311 | Definition of `OrdinalIgnoreCase` equality of two non-null strings: equal length and equal folded characters at every position. Its properties are the two rows below. |
| Text.NameEquals | src/NuGet.Core/NuGet.Commands/RestoreCommand/Utility/MSBuildRestoreUtility.cs:154-156 | Definition of `StringComparer.OrdinalIgnoreCase.Equals` on possibly-null names: two nulls are equal, null never equals a string, two strings compare ignoring case. |
| Text.IsNullOrEmpty | src/NuGet.Core/NuGet.Commands/RestoreCommand/Utility/MSBuildRestoreUtility.cs:31 | Definition of `string.IsNullOrEmpty`: the value is null or the empty string. |
| Text.EqualsIgnoreCaseIsLowerEquality | src/NuGet.Core/NuGet.Commands/RestoreCommand/Utility/MSBuildRestoreUtility.cs:156 | Ordinal case-insensitive equality holds exactly when the invariant lower-case forms are equal. |
| Text.EqualsIgnoreCaseIsEquivalence | src/NuGet.Core/NuGet.Commands/RestoreCommand/Utility/MSBuildRestoreUtility.cs:311 | Case-insensitive equality of strings is reflexive, symmetric and transitive. |
| Text.NameEqualsIsEquivalence | src/NuGet.Core/NuGet.Commands/RestoreCommand/Utility/MSBuildRestoreUtility.cs:154-156 | The `OrdinalIgnoreCase` comparison of possibly-null names is an equivalence, so a name is "already present" whichever of its case variants arrived first. |
| Text.Split | src/NuGet.Core/NuGet.Commands/RestoreCommand/Utility/MSBuildRestoreUtility.cs:303 | `Split` returns at least one piece, and no piece contains the separator. |
| Text.JoinSplit | src/NuGet.Core/NuGet.Commands/RestoreCommand/Utility/MSBuildRestoreUtility.cs:303 | Joining the pieces of `Split(';')` with `;` gives back the original string. |
| Text.SplitJoin | src/NuGet.Core/NuGet.Commands/RestoreCommand/Utility/MSBuildRestoreUtility.cs:303 | Splitting a `;`-join of separator-free pieces gives the same pieces back. |
| MSBuildItems.GetProperty | src/NuGet.Core/NuGet.Commands/RestoreCommand/Utility/MSBuildRestoreUtility.cs:25 | `GetProperty`: the value stored under the key, or null when the key is unset. A value it returns is stored under that key. |
| MSBuildItems.HasType | src/NuGet.Core/NuGet.Commands/RestoreCommand/Utility/MSBuildRestoreUtility.cs:311 | Definition of the `Where` filter test: the item has a `Type` equal to the type ignoring case. An item without `Type` matches nothing. |
| MSBuildItems.GetItemByType | src/NuGet.Core/NuGet.Commands/RestoreCommand/Utility/MSBuildRestoreUtility.cs:309-312 | Keeps exactly the items whose `Type` equals the type ignoring case. It adds nothing, and is empty exactly when no item has the type. |
| MSBuildItems.TwoOfType | src/NuGet.Core/NuGet.Commands/RestoreCommand/Utility/MSBuildRestoreUtility.cs:57-59 | The filter keeps two or more items exactly when two distinct positions have the type, which is when `SingleOrDefault` throws. |
| MSBuildItems.GetItemByTypeConcat | src/NuGet.Core/NuGet.Commands/RestoreCommand/Utility/MSBuildRestoreUtility.cs:309-312 | Filtering a concatenation is concatenating the filtered parts. So the filter keeps the input order and each item once per occurrence. |
| MSBuildItems.PositionInFilter | src/NuGet.Core/NuGet.Commands/RestoreCommand/Utility/MSBuildRestoreUtility.cs:309-312 | An item of the type at input position k is in the filtered sequence, right after the filtered items that come before position k. |
| ProjectModel.HasName | src/NuGet.Core/NuGet.Commands/RestoreCommand/Utility/MSBuildRestoreUtility.cs:154-156 | Holds exactly when some dependency in the list has the name, compared ignoring case, with null equal only to null. |
| ProjectModel.TargetFrameworkSlot | src/NuGet.Core/NuGet.Commands/RestoreCommand/Utility/MSBuildRestoreUtility.cs:168 | The entry `GetTargetFramework` hands back is one of the spec's declared frameworks, or it is detached. |
| ProjectModel.FileNameWithoutExtension | src/NuGet.Core/NuGet.Commands/RestoreCommand/Utility/MSBuildRestoreUtility.cs:261 | The file-name stem is null exactly when the path is null. |
| ProjectModel.PackageSpec.constructor | src/NuGet.Core/NuGet.Commands/RestoreCommand/Utility/MSBuildRestoreUtility.cs:282 | A new spec has the given framework entries, no dependencies, no path or name, and empty metadata. |
| ProjectModel.DependencyGraphSpec.constructor | src/NuGet.Core/NuGet.Commands/RestoreCommand/Utility/MSBuildRestoreUtility.cs:18 | A new graph spec has recorded no restore roots and no projects. |
| ProjectModel.DependencyGraphSpec.AddRestore | src/NuGet.Core/NuGet.Commands/RestoreCommand/Utility/MSBuildRestoreUtility.cs:29 | Records one restore root. The recorded projects do not change. |
| ProjectModel.DependencyGraphSpec.AddProject | src/NuGet.Core/NuGet.Commands/RestoreCommand/Utility/MSBuildRestoreUtility.cs:47 | Records one project spec, which may be null. The recorded roots do not change. |
| DependencyInsertion.InsertGlobal | src/NuGet.Core/NuGet.Commands/RestoreCommand/Utility/MSBuildRestoreUtility.cs:152-164 | Definition of the global insert: append the dependency unless the global list has its name, ignoring case. `InsertGlobalSpec` and `InsertGlobalKeepsUnique` state its properties. |
| DependencyInsertion.InsertScoped | src/NuGet.Core/NuGet.Commands/RestoreCommand/Utility/MSBuildRestoreUtility.cs:166-181 | Definition of the scoped insert over a set of framework entries: an entry grows by the dependency exactly when neither the global list nor that entry has its name. `GlobalBlocksScoped` and `InsertScopedFrame` state its properties. |
| DependencyInsertion.AddToScopes | src/NuGet.Core/NuGet.Commands/RestoreCommand/Utility/MSBuildRestoreUtility.cs:120-134 | Definition of one item's insertion: the global insert when it names no framework, otherwise the scoped insert into each requested framework entry. `InsertScopedStep` and `ScopesAreIsolated` state its properties. |
| DependencyInsertion.IngestAll | src/NuGet.Core/NuGet.Commands/RestoreCommand/Utility/MSBuildRestoreUtility.cs:105-143 | Definition of one pass: the insertions of the items' entries, in item order. The `IngestAll*` and `*GlobalWins` rows state its properties. |
| DependencyInsertion.Slots | src/NuGet.Core/NuGet.Commands/RestoreCommand/Utility/MSBuildRestoreUtility.cs:130-133 | The entries a framework set resolves to are among the declared frameworks. |
| DependencyInsertion.InsertGlobalSpec | src/NuGet.Core/NuGet.Commands/RestoreCommand/Utility/MSBuildRestoreUtility.cs:152-164 | The global insert appends exactly when the name is absent and otherwise leaves the list unchanged. Either way the name is present afterwards. |
| DependencyInsertion.InsertGlobalKeepsUnique | src/NuGet.Core/NuGet.Commands/RestoreCommand/Utility/MSBuildRestoreUtility.cs:152-164 | The global insert keeps the global list free of duplicate names. |
| DependencyInsertion.GlobalBlocksScoped | src/NuGet.Core/NuGet.Commands/RestoreCommand/Utility/MSBuildRestoreUtility.cs:170-173 | A name already in the global list blocks every framework-scoped insert of that name. |
| DependencyInsertion.InsertScopedFrame | src/NuGet.Core/NuGet.Commands/RestoreCommand/Utility/MSBuildRestoreUtility.cs:166-181 | A scoped insert adds or removes no framework entry and leaves unchosen entries alone. Each list stays free of duplicate names. |
| DependencyInsertion.InsertScopedStep | src/NuGet.Core/NuGet.Commands/RestoreCommand/Utility/MSBuildRestoreUtility.cs:130-133 | Inserting under one more framework extends the set of entries inserted into by one. So the order in which the hash set yields frameworks does not matter. |
| DependencyInsertion.IngestAllStep | src/NuGet.Core/NuGet.Commands/RestoreCommand/Utility/MSBuildRestoreUtility.cs:105-143 | One more item adds exactly one insertion. |
| DependencyInsertion.IngestAllConcat | src/NuGet.Core/NuGet.Commands/RestoreCommand/Utility/MSBuildRestoreUtility.cs:87-95 | Ingesting the items of consecutive passes equals ingesting their concatenation. |
| DependencyInsertion.IngestAllExtends | src/NuGet.Core/NuGet.Commands/RestoreCommand/Utility/MSBuildRestoreUtility.cs:120-134 | Insertions keep every framework entry, only ever append to the lists, and keep every list free of duplicate names. |
| DependencyInsertion.IngestAllOrigins | src/NuGet.Core/NuGet.Commands/RestoreCommand/Utility/MSBuildRestoreUtility.cs:120-134 | Every dependency afterwards was there before or is one of the ingested items' dependencies. |
| DependencyInsertion.DuplicateGlobalKeepsFirst | src/NuGet.Core/NuGet.Commands/RestoreCommand/Utility/MSBuildRestoreUtility.cs:152-164 | Of two global items whose names are equal ignoring case, only the first is kept, with its own version range. |
| DependencyInsertion.ScopesAreIsolated | src/NuGet.Core/NuGet.Commands/RestoreCommand/Utility/MSBuildRestoreUtility.cs:166-181 | The same name scoped to two different frameworks is kept once under each. |
| DependencyInsertion.GlobalNameOrigins | src/NuGet.Core/NuGet.Commands/RestoreCommand/Utility/MSBuildRestoreUtility.cs:152-164 | A name in the global list afterwards was there before or comes from a global item of that name. |
| DependencyInsertion.GlobalNameKept | src/NuGet.Core/NuGet.Commands/RestoreCommand/Utility/MSBuildRestoreUtility.cs:152-164 | Once a dependency is the only global one of its name, later insertions keep it and add no other of that name. |
| DependencyInsertion.EarliestGlobalWins | src/NuGet.Core/NuGet.Commands/RestoreCommand/Utility/MSBuildRestoreUtility.cs:87-95 | On a name clash the earliest global item wins. The order is project references, then framework assemblies, then packages, so earlier kinds win. |
| RestoreSpec.GetVersionRange | src/NuGet.Core/NuGet.Commands/RestoreCommand/Utility/MSBuildRestoreUtility.cs:245-255 | A null or empty `VersionRange` gives `All`; otherwise the result is the parsed range. It fails exactly when a non-empty value does not parse. |
| RestoreSpec.ParseFrameworks | src/NuGet.Core/NuGet.Commands/RestoreCommand/Utility/MSBuildRestoreUtility.cs:303 | Succeeds exactly when every token parses, and then gives the set of parsed tokens. Otherwise it reports the first token that does not parse. |
| RestoreSpec.GetFrameworks | src/NuGet.Core/NuGet.Commands/RestoreCommand/Utility/MSBuildRestoreUtility.cs:296-307 | A null or empty `TargetFrameworks` gives no framework. Otherwise the result is the parsed `;`-separated tokens. |
| RestoreSpec.ParseOutputType | src/NuGet.Core/NuGet.Commands/RestoreCommand/Utility/MSBuildRestoreUtility.cs:63-69 | `NETCore` or `UAP` exactly when the non-empty `OutputType` names it ignoring case. Anything else gives `Unknown`. |
| RestoreSpec.BaseSpecName | src/NuGet.Core/NuGet.Commands/RestoreCommand/Utility/MSBuildRestoreUtility.cs:286-291 | The name is `ProjectName`. It falls back to the stem of `ProjectPath` only when `ProjectName` is empty and `ProjectPath` is not. |
| RestoreSpec.BaseSpecValue | src/NuGet.Core/NuGet.Commands/RestoreCommand/Utility/MSBuildRestoreUtility.cs:273-294 | Definition of `GetBaseSpec` as a value: one empty framework entry per parsed framework, `FilePath` from `ProjectPath`, the base name, fresh metadata, or the first framework parse error. `BaseStrategyShape` states its shape. |
| RestoreSpec.UAPSpecValue | src/NuGet.Core/NuGet.Commands/RestoreCommand/Utility/MSBuildRestoreUtility.cs:257-271 | Definition of `GetUAPSpec` as a value: the project.json spec read under the stem of `ProjectPath`, with fresh metadata carrying `ProjectJsonPath` and that name, or an error when the reader fails. `UAPStrategyShape` states its shape. |
| RestoreSpec.EntryOf | src/NuGet.Core/NuGet.Commands/RestoreCommand/Utility/MSBuildRestoreUtility.cs:187-198 | Definition of the dependency one item yields, with its frameworks: `Id` or `ProjectReferenceUniqueName` as name, the item's version range read before its frameworks, and the pass's target. `ReferenceEntries` and `MalformedItemFails` state its properties. |
| RestoreSpec.Entries | src/NuGet.Core/NuGet.Commands/RestoreCommand/Utility/MSBuildRestoreUtility.cs:185-198 | Items are read in order. The read succeeds exactly when every item reads, and otherwise fails with the error of the first item that fails. |
| RestoreSpec.AddProjectReferencesValue | src/NuGet.Core/NuGet.Commands/RestoreCommand/Utility/MSBuildRestoreUtility.cs:101-150 | Definition of `AddProjectReferences` as a value: one pass over the `ProjectReference` entries, then one project reference per item appended to the metadata, or the first item's error. `MSBuildRestoreUtility.AddProjectReferences` is proved against it. |
| RestoreSpec.AddDependencyItemsValue | src/NuGet.Core/NuGet.Commands/RestoreCommand/Utility/MSBuildRestoreUtility.cs:183-243 | Definition of `AddFrameworkAssemblies` and `AddPackageReferences` as values: one pass over the entries of the items of the type, or the first item's error. `MSBuildRestoreUtility.AddItemsOfType` is proved against it. |
| RestoreSpec.StrategySpecValue | src/NuGet.Core/NuGet.Commands/RestoreCommand/Utility/MSBuildRestoreUtility.cs:71-80 | Definition of the strategy choice: the UAP output type reads project.json, every other type builds the base spec. `SpecFromStrategy` states its use. |
| RestoreSpec.SpecFromItem | src/NuGet.Core/NuGet.Commands/RestoreCommand/Utility/MSBuildRestoreUtility.cs:61-96 | Definition of the spec built around the one `ProjectSpec` item: the strategy's spec, the metadata overwritten, project references added, then for `NETCore` only framework assemblies and packages. `SpecFromStrategy`, `MetadataOfSpec` and `FirstGlobalPackageWins` state its properties. |
| RestoreSpec.PackageSpecValue | src/NuGet.Core/NuGet.Commands/RestoreCommand/Utility/MSBuildRestoreUtility.cs:53-99 | Definition of `GetPackageSpec` as a value: null when no item is a `ProjectSpec`, an error when two are, otherwise the spec built around the one that is. `NoSpecWithoutProjectSpecItem`, `TwoProjectSpecItemsFail` and `BuiltAroundSpecItem` state its cases. |
| RestoreSpec.IsRestoreSpec | src/NuGet.Core/NuGet.Commands/RestoreCommand/Utility/MSBuildRestoreUtility.cs:24-27 | Definition of the restore-root test: the item's `Type`, lower-cased invariantly, is `restorespec`, compared ordinally. |
| RestoreSpec.RestoreRoots | src/NuGet.Core/NuGet.Commands/RestoreCommand/Utility/MSBuildRestoreUtility.cs:22-30 | Definition of the restore roots: the `ProjectUniqueName` of every restore-spec item, possibly null, in input order and with duplicates. `RestoreRootsConcat` and `RestoreItemPlacement` state its properties. |
| RestoreSpec.Buckets | src/NuGet.Core/NuGet.Commands/RestoreCommand/Utility/MSBuildRestoreUtility.cs:31-41 | Definition of the buckets: the other items with a non-empty `ProjectUniqueName`, grouped by it, compared ordinally, each bucket in input order. `BucketsAreFilters` states that each bucket is a filter of the input. |
| RestoreSpec.ReferencesOf | src/NuGet.Core/NuGet.Commands/RestoreCommand/Utility/MSBuildRestoreUtility.cs:136-142 | One `ProjectRestoreReference` per item, carrying its unique name and path. |
| RestoreSpec.ItemsOfProject | src/NuGet.Core/NuGet.Commands/RestoreCommand/Utility/MSBuildRestoreUtility.cs:31-41 | Holds exactly the non-restore-spec items whose `ProjectUniqueName` is the key, compared case-sensitively. |
| RestoreSpec.BucketsAreFilters | src/NuGet.Core/NuGet.Commands/RestoreCommand/Utility/MSBuildRestoreUtility.cs:19-42 | Each bucket is the input filtered on its exact project name, in input order. There is a bucket exactly for each non-empty name some non-restore-spec item carries. |
| RestoreSpec.RestoreRootsConcat | src/NuGet.Core/NuGet.Commands/RestoreCommand/Utility/MSBuildRestoreUtility.cs:22-30 | The roots are collected in input order. |
| RestoreSpec.RestoreItemPlacement | src/NuGet.Core/NuGet.Commands/RestoreCommand/Utility/MSBuildRestoreUtility.cs:24-30 | A restore-spec item contributes its `ProjectUniqueName` to the roots and joins no bucket. |
| RestoreSpec.EntriesStopAt | src/NuGet.Core/NuGet.Commands/RestoreCommand/Utility/MSBuildRestoreUtility.cs:185-192 | When the first failing item is at position `i`, the whole pass fails with that item's error. |
| RestoreSpec.EntriesKeepError | src/NuGet.Core/NuGet.Commands/RestoreCommand/Utility/MSBuildRestoreUtility.cs:185-192 | Once a prefix of the pass fails, the whole pass fails with the same error. |
| RestoreSpec.NoSpecWithoutProjectSpecItem | src/NuGet.Core/NuGet.Commands/RestoreCommand/Utility/MSBuildRestoreUtility.cs:55-61 | `GetPackageSpec` yields null exactly when no item's `Type` is `ProjectSpec` ignoring case. |
| RestoreSpec.TwoProjectSpecItemsFail | src/NuGet.Core/NuGet.Commands/RestoreCommand/Utility/MSBuildRestoreUtility.cs:57-59 | `GetPackageSpec` fails with the `SingleOrDefault` error exactly when two items are `ProjectSpec` items. |
| RestoreSpec.BuiltAroundSpecItem | src/NuGet.Core/NuGet.Commands/RestoreCommand/Utility/MSBuildRestoreUtility.cs:57-61 | A produced spec is the one built around any item whose `Type` is `ProjectSpec`. |
| RestoreSpec.SpecFromStrategy | src/NuGet.Core/NuGet.Commands/RestoreCommand/Utility/MSBuildRestoreUtility.cs:71-95 | The spec's lists are the strategy's lists after project references and, only for `NETCore`, framework assemblies and then packages. Its framework entries, path and name are the strategy's. The metadata is overwritten from the item and gains one reference per `ProjectReference` item. Lists stay free of duplicate names. |
| RestoreSpec.FirstGlobalItemWins | src/NuGet.Core/NuGet.Commands/RestoreCommand/Utility/MSBuildRestoreUtility.cs:187-212 | Within one pass, the first item of the type with a global entry of a name wins: if the lists start without the name, its dependency is in the end the only global dependency of that name. Later items of the type cannot replace it. |
| RestoreSpec.NETCoreListsSplit | src/NuGet.Core/NuGet.Commands/RestoreCommand/Utility/MSBuildRestoreUtility.cs:87-95 | The global list of a `NETCore` spec is the base lists after the project references and framework assemblies, followed by one pass over the packages. |
| RestoreSpec.FirstGlobalPackageWins | src/NuGet.Core/NuGet.Commands/RestoreCommand/Utility/MSBuildRestoreUtility.cs:87-95 | In a `NETCore` spec, the first `Dependency` item with a global entry of a name gives the only global dependency of that name. This holds when no `ProjectReference` or `FrameworkAssembly` item has a global entry of that name. |
| RestoreSpec.StrategyMetadataFresh | src/NuGet.Core/NuGet.Commands/RestoreCommand/Utility/MSBuildRestoreUtility.cs:267 | Both strategies start from new metadata with no output type, paths or references. |
| RestoreSpec.MetadataFromProjectSpecItem | src/NuGet.Core/NuGet.Commands/RestoreCommand/Utility/MSBuildRestoreUtility.cs:82-88 | The metadata records the parsed output type and the `ProjectSpec` item's `ProjectPath` and `ProjectUniqueName`. It holds one reference per `ProjectReference` item. |
| RestoreSpec.BaseStrategyShape | src/NuGet.Core/NuGet.Commands/RestoreCommand/Utility/MSBuildRestoreUtility.cs:273-294 | For non-UAP specs, `FilePath` is `ProjectPath` and the name follows the fallback. There is one entry per distinct parsed framework, none when the property is empty. There is no project.json path, and no list holds a name twice. |
| RestoreSpec.UAPStrategyShape | src/NuGet.Core/NuGet.Commands/RestoreCommand/Utility/MSBuildRestoreUtility.cs:257-271 | For UAP, the spec is the one read from `ProjectJsonPath` under the stem of `ProjectPath`, and its metadata records both. |
| RestoreSpec.UnknownHasOnlyProjectDependencies | src/NuGet.Core/NuGet.Commands/RestoreCommand/Utility/MSBuildRestoreUtility.cs:87-95 | For `Unknown`, every dependency is a project dependency for all versions. Framework assemblies and packages are ignored. |
| RestoreSpec.UnknownDependenciesNameReferences | src/NuGet.Core/NuGet.Commands/RestoreCommand/Utility/MSBuildRestoreUtility.cs:105-114 | For `Unknown`, every global dependency is named by some `ProjectReference` item's `ProjectReferenceUniqueName`. |
| RestoreSpec.ReferenceEntries | src/NuGet.Core/NuGet.Commands/RestoreCommand/Utility/MSBuildRestoreUtility.cs:105-114 | Each `ProjectReference` item yields a dependency on its `ProjectReferenceUniqueName` for all versions, with target kind Project or ExternalProject. |
| RestoreSpec.MalformedVersionRangeFails | src/NuGet.Core/NuGet.Commands/RestoreCommand/Utility/MSBuildRestoreUtility.cs:245-252 | For `NETCore`, a malformed version range on a framework-assembly or package item makes `GetPackageSpec` fail. |
| RestoreSpec.MalformedItemFails | src/NuGet.Core/NuGet.Commands/RestoreCommand/Utility/MSBuildRestoreUtility.cs:190-198 | One item of the type whose non-empty version range does not parse makes the whole framework-assembly or package pass fail. |
| MSBuildRestoreUtility.AddDependencyIfNotExist | src/NuGet.Core/NuGet.Commands/RestoreCommand/Utility/MSBuildRestoreUtility.cs:152-164 | Returns true exactly when no global dependency has the name. The global list becomes the global insert, and nothing else in the spec changes. |
| MSBuildRestoreUtility.AddFrameworkDependencyIfNotExist | src/NuGet.Core/NuGet.Commands/RestoreCommand/Utility/MSBuildRestoreUtility.cs:166-181 | Returns true exactly when neither the global list nor the chosen entry's list has the name. Only that entry's list grows, and the global list is never modified. |
| MSBuildRestoreUtility.AddDependency | src/NuGet.Core/NuGet.Commands/RestoreCommand/Utility/MSBuildRestoreUtility.cs:120-134 | Inserts globally when the item has no framework, otherwise once per framework in any order. The result is the value-level insertion. |
| MSBuildRestoreUtility.AddProjectReferences | src/NuGet.Core/NuGet.Commands/RestoreCommand/Utility/MSBuildRestoreUtility.cs:101-150 | Succeeds exactly when every `ProjectReference` item's frameworks parse. Then the spec holds the value-level result, up to the order of the references. |
| MSBuildRestoreUtility.AddReferencesToMetadata | src/NuGet.Core/NuGet.Commands/RestoreCommand/Utility/MSBuildRestoreUtility.cs:145-149 | Every member of the reference set joins the metadata, as a multiset, and nothing else changes. |
| MSBuildRestoreUtility.AddItemsOfType | src/NuGet.Core/NuGet.Commands/RestoreCommand/Utility/MSBuildRestoreUtility.cs:183-243 | Succeeds exactly when every item of the type reads. Then the spec holds the value-level result; otherwise the call fails with the first item's error. |
| MSBuildRestoreUtility.AddFrameworkAssemblies | src/NuGet.Core/NuGet.Commands/RestoreCommand/Utility/MSBuildRestoreUtility.cs:214-243 | As `AddItemsOfType`, for `FrameworkAssembly` items with target `Reference`. |
| MSBuildRestoreUtility.AddPackageReferences | src/NuGet.Core/NuGet.Commands/RestoreCommand/Utility/MSBuildRestoreUtility.cs:183-212 | As `AddItemsOfType`, for `Dependency` items with target `Package`. |
| MSBuildRestoreUtility.GetBaseSpec | src/NuGet.Core/NuGet.Commands/RestoreCommand/Utility/MSBuildRestoreUtility.cs:273-294 | Builds a new spec holding the base value, or fails exactly when a framework token does not parse. |
| MSBuildRestoreUtility.GetUAPSpec | src/NuGet.Core/NuGet.Commands/RestoreCommand/Utility/MSBuildRestoreUtility.cs:257-271 | Builds a new spec holding the project.json value, or fails exactly when the reader fails. |
| MSBuildRestoreUtility.BuildSpec | src/NuGet.Core/NuGet.Commands/RestoreCommand/Utility/MSBuildRestoreUtility.cs:61-96 | Builds a new spec matching the value built around the `ProjectSpec` item, or fails with that value's error. |
| MSBuildRestoreUtility.GetPackageSpec | src/NuGet.Core/NuGet.Commands/RestoreCommand/Utility/MSBuildRestoreUtility.cs:53-99 | Returns null, a new spec, or an error, in agreement with the value-level `GetPackageSpec`. |
| MSBuildRestoreUtility.GetDependencySpec | src/NuGet.Core/NuGet.Commands/RestoreCommand/Utility/MSBuildRestoreUtility.cs:16-51 | Records the restore roots in input order and one project per bucket in some order, each agreeing with its bucket's spec. It succeeds exactly when every bucket's spec does, and otherwise fails with the error of one failing bucket. |
| MSBuildRestoreUtility.ClassifyItems | src/NuGet.Core/NuGet.Commands/RestoreCommand/Utility/MSBuildRestoreUtility.cs:21-42 | The first loop. The buckets are exactly the value-level buckets of the input. The restore roots gain the value-level roots, in input order, and no project is recorded. |
| MSBuildRestoreUtility.AddProjectSpecs | src/NuGet.Core/NuGet.Commands/RestoreCommand/Utility/MSBuildRestoreUtility.cs:44-48 | The second loop. It visits every key once, in some order. It succeeds exactly when every bucket's spec reads, and otherwise fails with the error of one failing bucket. On success each recorded project agrees with its bucket's spec, and the roots are untouched. |
| MSBuildRestoreUtility.AddBucketSpec | src/NuGet.Core/NuGet.Commands/RestoreCommand/Utility/MSBuildRestoreUtility.cs:44-47 | One step of the second loop. It records one project agreeing with the bucket's spec exactly when that spec reads. Otherwise it fails with the spec's error. |

## Left out

- The class in `src/NuGet.Core/NuGet.Commands/RestoreCommand/RequestFactory/MSBuildRestoreUtility.cs`: its entry points only throw `NotImplementedException` and its `CreateDGFile` is commented out. It is superseded by the class modelled here.
- `Dump` in both classes: it only writes to a logger.
- `src/NuGet.Clients/NuGet.CommandLine/MsBuildToolsetEx.cs`: a wrapper around the MSBuild toolset and a COM setup instance. It builds no restore specifications.
- The library calls are parameters, not specifications:
  - `NuGetFramework.Parse`, `VersionRange.Parse`, `Path.GetFileNameWithoutExtension`, `JsonPackageSpecReader.GetPackageSpec` and `PackageSpec.GetTargetFramework` are fields of `Collaborators`.
  - Only the shape of their results is relied on. For the framework parser, the version-range parser and the project.json reader, a call that throws is a `None` result.
- `Path.GetFileNameWithoutExtension` (`src/NuGet.Core/NuGet.Commands/RestoreCommand/Utility/MSBuildRestoreUtility.cs:261`, `:290`) is assumed not to throw. On .NET Framework it throws `ArgumentException` for a path with invalid characters; the model's `fileNameWithoutExtension` is total.
- `PackageSpec.GetTargetFramework` (`src/NuGet.Core/NuGet.Commands/RestoreCommand/Utility/MSBuildRestoreUtility.cs:168`) is assumed not to throw. A `None` from `targetFrameworkEntry` means a detached entry, not an exception.
- Text.EqualsIgnoreCase: folds ASCII letters only. `OrdinalIgnoreCase` and `ToLowerInvariant` also fold other letters.
- Text.Lower: the same ASCII-only folding, used for the `restorespec` test.
- MSBuildItems.GetProperty: reads the property under the key as spelled. How `IMSBuildItem` compares keys is not part of this model.
- RestoreSpec.ParseOutputType:
  - The enum is assumed to be `{Unknown, NETCore, UAP}`, with `Unknown` as its default.
  - The numeric and comma-separated forms that `Enum.TryParse` also accepts are not modelled, nor its trimming of white space.
- `PackageSpec.GetTargetFramework` is assumed to return an existing entry, or an entry not attached to the spec whose insertion is lost. It is never assumed to create an entry.
- Framework entries are a map from framework to dependency list. The order of the `TargetFrameworkInformation` list, and the sharing of entry objects, are not modelled.
- The `IncludeType` and `SuppressParent` flags of every dependency are not modelled. They are set to the same constants for every item.
- A null `Id` or `ProjectReferenceUniqueName` becomes a dependency with a null name. Whether `LibraryRange` rejects that is not part of this model.
- `DependencyGraphSpec.AddRestore` and `AddProject` are not shown. The model records their arguments in call order and assumes nothing more.
- Enumeration order:
  - The bucket dictionary, the framework hash sets and the reference hash set are visited in an unspecified order.
  - `GetDependencySpec` reports the bucket order it used as `order`.
  - Specs are compared with the value-level result up to the order of their project references.
- MSBuildRestoreUtility.AddProjectReferences: after a failure, the partially filled spec is not described, because the exception abandons it.
- MSBuildRestoreUtility.AddItemsOfType: after a failure, the partially filled spec is not described, for the same reason.
- MSBuildRestoreUtility.GetDependencySpec: on failure, the partially filled graph is not returned. Which failing bucket is reported depends on the unspecified order.
- `JsonPackageSpecReader.GetPackageSpec` returns a whole `PackageSpec`. Only its path, name, dependencies and framework entries are modelled. Its other fields (version, authors and so on) are left out.
- Lists that the source mutates in place, such as the bucket lists, `Dependencies` and `ProjectReferences`, are sequence-valued fields replaced on each change. Aliasing between such lists is not modelled.
