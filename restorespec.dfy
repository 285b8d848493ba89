/** The mapping from build items to restore specifications, as values: the expression-level
    helpers of `MSBuildRestoreUtility` (`GetVersionRange`, `GetFrameworks`, output-type parsing,
    the naming logic of the base spec), the value `GetPackageSpec` must produce for one bucket
    of items, the classification `GetDependencySpec` performs, and what they guarantee. */
module RestoreSpec {
  import opened Wrappers
  import opened Text
  import opened MSBuildItems
  import opened ProjectModel
  import opened DependencyInsertion

  // ----- expression-level helpers of the source -----

  /** `GetVersionRange`: `VersionRange.All` for a null or empty `VersionRange` property,
      otherwise the parsed value; a malformed value throws. */
  function GetVersionRange(item: Item, env: Collaborators): (r: Result<VersionRange, Error>)
    ensures var text := GetProperty(item, "VersionRange");
            && (IsNullOrEmpty(text) ==> r == Ok(AllVersions))
            && (!IsNullOrEmpty(text) && env.parseVersionRange(text.value).Some? ==> r == Ok(env.parseVersionRange(text.value).value))
            && (r.Err? <==> !IsNullOrEmpty(text) && env.parseVersionRange(text.value).None?)
            && (r.Err? ==> r.error == VersionRangeParseError(text.value))
  {
    var text := GetProperty(item, "VersionRange");
    if IsNullOrEmpty(text) then Ok(AllVersions)
    else match env.parseVersionRange(text.value)
      case Some(range) => Ok(range)
      case None => Err(VersionRangeParseError(text.value))
  }

  /** `tokens.Select(NuGetFramework.Parse)` gathered into a set; the first token that does not
      parse is the one reported. */
  function ParseFrameworks(tokens: seq<string>, env: Collaborators): (r: Result<set<Framework>, Error>)
    ensures r.Ok? <==> forall i :: 0 <= i < |tokens| ==> env.parseFramework(tokens[i]).Some?
    ensures r.Ok? ==> r.value == set t | t in tokens && env.parseFramework(t).Some? :: env.parseFramework(t).value
    ensures r.Err? ==> exists i :: 0 <= i < |tokens| && env.parseFramework(tokens[i]).None?
                                   && r.error == FrameworkParseError(tokens[i])
                                   && forall j :: 0 <= j < i ==> env.parseFramework(tokens[j]).Some?
  {
    if tokens == [] then Ok({})
    else match env.parseFramework(tokens[0])
      case None => Err(FrameworkParseError(tokens[0]))
      case Some(f) =>
        var rest := ParseFrameworks(tokens[1..], env);
        assert forall i :: 1 <= i < |tokens| ==> tokens[i] == tokens[1..][i - 1];
        if rest.Err? then
          ghost var i :| 0 <= i < |tokens[1..]| && env.parseFramework(tokens[1..][i]).None?
                         && rest.error == FrameworkParseError(tokens[1..][i])
                         && forall j :: 0 <= j < i ==> env.parseFramework(tokens[1..][j]).Some?;
          assert env.parseFramework(tokens[i + 1]).None?;
          Err(rest.error)
        else
          assert tokens == [tokens[0]] + tokens[1..];
          Ok({f} + rest.value)
  }

  /** `GetFrameworks`: the distinct parsed tokens of the `TargetFrameworks` property split on
      `;`, and no framework at all when the property is null or empty. */
  function GetFrameworks(item: Item, env: Collaborators): (r: Result<set<Framework>, Error>)
    ensures var text := GetProperty(item, "TargetFrameworks");
            IsNullOrEmpty(text) ==> r == Ok({})
    ensures var text := GetProperty(item, "TargetFrameworks");
            !IsNullOrEmpty(text) ==> r == ParseFrameworks(Split(text.value, ';'), env)
  {
    var text := GetProperty(item, "TargetFrameworks");
    if IsNullOrEmpty(text) then Ok({}) else ParseFrameworks(Split(text.value, ';'), env)
  }

  /** The output type: `Unknown` unless the `OutputType` property names `NETCore` or `UAP`,
      ignoring case (`Enum.TryParse` leaves the default value when it fails). */
  function ParseOutputType(text: Option<string>): (r: OutputType)
    ensures r == NETCore <==> !IsNullOrEmpty(text) && EqualsIgnoreCase(text.value, "NETCore")
    ensures r == UAP <==> !IsNullOrEmpty(text) && EqualsIgnoreCase(text.value, "UAP")
  {
    if IsNullOrEmpty(text) then Unknown
    else if EqualsIgnoreCase(text.value, "NETCore") then NETCore
    else if EqualsIgnoreCase(text.value, "UAP") then UAP
    else Unknown
  }

  /** The base spec's name: `ProjectName`, or the file-name stem of `ProjectPath` when
      `ProjectName` is null or empty and `ProjectPath` is not. */
  function BaseSpecName(specItem: Item, env: Collaborators): (r: Option<string>)
    ensures var name := GetProperty(specItem, "ProjectName");
            var path := GetProperty(specItem, "ProjectPath");
            && (!IsNullOrEmpty(name) ==> r == name)
            && (IsNullOrEmpty(name) && !IsNullOrEmpty(path) ==> r == Some(env.fileNameWithoutExtension(path.value)))
            && (IsNullOrEmpty(name) && IsNullOrEmpty(path) ==> r == name)
  {
    var name := GetProperty(specItem, "ProjectName");
    var path := GetProperty(specItem, "ProjectPath");
    if IsNullOrEmpty(name) && !IsNullOrEmpty(path) then FileNameWithoutExtension(env, path) else name
  }

  // ----- the two construction strategies -----

  /** `GetBaseSpec`: one empty framework entry per parsed framework, `FilePath` from
      `ProjectPath`, the base name, fresh metadata. */
  function BaseSpecValue(specItem: Item, env: Collaborators): Result<SpecValue, Error> {
    var frameworks :- GetFrameworks(specItem, env);
    Ok(SpecValue(GetProperty(specItem, "ProjectPath"), BaseSpecName(specItem, env), [],
                 map f | f in frameworks :: [], EmptyMetadata))
  }

  /** `GetUAPSpec`: the project.json spec read under the stem of `ProjectPath` (whatever
      `ProjectName` says), with fresh metadata carrying `ProjectJsonPath` and that name. */
  function UAPSpecValue(specItem: Item, env: Collaborators): Result<SpecValue, Error> {
    var projectName := FileNameWithoutExtension(env, GetProperty(specItem, "ProjectPath"));
    var projectJsonPath := GetProperty(specItem, "ProjectJsonPath");
    match env.readProjectJson(projectName, projectJsonPath)
    case None => Err(ProjectJsonError(projectJsonPath))
    case Some(json) =>
      Ok(SpecValue(json.filePath, json.name, json.dependencies, json.targetFrameworks,
                   EmptyMetadata.(projectJsonPath := projectJsonPath, projectName := projectName)))
  }

  // ----- dependencies read from items -----

  /** The dependency one item yields, with its frameworks. A `ProjectReference` item yields a
      project dependency on `ProjectReferenceUniqueName` for all versions; a `FrameworkAssembly`
      or `Dependency` item yields a dependency on `Id` with the item's version range (read
      before its frameworks). */
  function EntryOf(item: Item, target: DependencyTarget, env: Collaborators): Result<Entry, Error> {
    if target == ProjectOrExternalProject then
      var frameworks :- GetFrameworks(item, env);
      Ok(Entry(Dependency(GetProperty(item, "ProjectReferenceUniqueName"), AllVersions, ProjectOrExternalProject), frameworks))
    else
      var range :- GetVersionRange(item, env);
      var frameworks :- GetFrameworks(item, env);
      Ok(Entry(Dependency(GetProperty(item, "Id"), range, target), frameworks))
  }

  /** The entries of a sequence of items, in order; the first item that throws decides the error. */
  function Entries(items: seq<Item>, target: DependencyTarget, env: Collaborators): (r: Result<seq<Entry>, Error>)
    ensures r.Ok? <==> forall i :: 0 <= i < |items| ==> EntryOf(items[i], target, env).Ok?
    ensures r.Ok? ==> |r.value| == |items| &&
                      forall i :: 0 <= i < |items| ==> EntryOf(items[i], target, env) == Ok(r.value[i])
    ensures r.Err? ==> exists i :: 0 <= i < |items| && EntryOf(items[i], target, env) == Err(r.error)
                                   && forall j :: 0 <= j < i ==> EntryOf(items[j], target, env).Ok?
    decreases |items|
  {
    if items == [] then Ok([])
    else
      var init := items[..|items| - 1];
      var last := items[|items| - 1];
      assert forall i :: 0 <= i < |init| ==> init[i] == items[i];
      var prefix := Entries(init, target, env);
      if prefix.Err? then Err(prefix.error)
      else match EntryOf(last, target, env)
        case Err(e) => Err(e)
        case Ok(entry) => Ok(prefix.value + [entry])
  }

  /** The `ProjectRestoreReference` one `ProjectReference` item yields. */
  function ReferenceOf(item: Item): ProjectRestoreReference {
    ProjectRestoreReference(GetProperty(item, "ProjectReferenceUniqueName"), GetProperty(item, "ProjectPath"))
  }

  /** One reference per item: a set of objects without value equality merges nothing. */
  function ReferencesOf(items: seq<Item>): (r: seq<ProjectRestoreReference>)
    ensures |r| == |items|
    ensures forall i :: 0 <= i < |items| ==> r[i] == ReferenceOf(items[i])
  {
    seq(|items|, i requires 0 <= i < |items| => ReferenceOf(items[i]))
  }

  /** `AddProjectReferences`, as a value. */
  function AddProjectReferencesValue(s: SpecValue, items: seq<Item>, env: Collaborators): Result<SpecValue, Error> {
    var referenceItems := GetItemByType(items, "ProjectReference");
    var entries :- Entries(referenceItems, ProjectOrExternalProject, env);
    var withDependencies := s.WithLists(IngestAll(s.Lists(), entries, env));
    Ok(withDependencies.(metadata := withDependencies.metadata.(
      projectReferences := withDependencies.metadata.projectReferences + ReferencesOf(referenceItems))))
  }

  /** `AddFrameworkAssemblies` (type `FrameworkAssembly`, target `Reference`) and
      `AddPackageReferences` (type `Dependency`, target `Package`), as values. */
  function AddDependencyItemsValue(s: SpecValue, items: seq<Item>, itemType: string,
                                   target: DependencyTarget, env: Collaborators): Result<SpecValue, Error> {
    var entries :- Entries(GetItemByType(items, itemType), target, env);
    Ok(s.WithLists(IngestAll(s.Lists(), entries, env)))
  }

  /** The first item of the type whose entry fails decides the error of the whole pass. */
  lemma DependencyItemsFailAt(s: SpecValue, items: seq<Item>, itemType: string, target: DependencyTarget,
                              env: Collaborators, i: nat, e: Error)
    requires i < |GetItemByType(items, itemType)|
    requires Entries(GetItemByType(items, itemType)[..i], target, env).Ok?
    requires EntryOf(GetItemByType(items, itemType)[i], target, env) == Err(e)
    ensures AddDependencyItemsValue(s, items, itemType, target, env) == Err(e)
  {
    EntriesStopAt(GetItemByType(items, itemType), i, target, env);
  }

  /** When every entry reads, the pass ingests them all in order. */
  lemma DependencyItemsPass(s: SpecValue, items: seq<Item>, itemType: string, target: DependencyTarget,
                            env: Collaborators)
    requires Entries(GetItemByType(items, itemType), target, env).Ok?
    ensures AddDependencyItemsValue(s, items, itemType, target, env)
            == Ok(s.WithLists(IngestAll(s.Lists(), Entries(GetItemByType(items, itemType), target, env).value, env)))
  {
  }

  /** The strategy `GetPackageSpec` picks from the output type: UAP reads project.json,
      every other type builds the base spec. */
  function StrategySpecValue(specItem: Item, env: Collaborators): Result<SpecValue, Error> {
    if ParseOutputType(GetProperty(specItem, "OutputType")) == UAP then UAPSpecValue(specItem, env)
    else BaseSpecValue(specItem, env)
  }

  /** The spec built around the one `ProjectSpec` item: the strategy's spec with the metadata
      overwritten, project references added, and, for `NETCore` only, framework assemblies
      and then packages. */
  function SpecFromItem(specItem: Item, items: seq<Item>, env: Collaborators): Result<SpecValue, Error> {
    var outputType := ParseOutputType(GetProperty(specItem, "OutputType"));
    var base :- StrategySpecValue(specItem, env);
    var withMetadata := base.(metadata := base.metadata.(
      outputType := outputType,
      projectPath := GetProperty(specItem, "ProjectPath"),
      projectUniqueName := GetProperty(specItem, "ProjectUniqueName")));
    var withReferences :- AddProjectReferencesValue(withMetadata, items, env);
    if outputType == NETCore then
      var withAssemblies :- AddDependencyItemsValue(withReferences, items, "FrameworkAssembly", Reference, env);
      AddDependencyItemsValue(withAssemblies, items, "Dependency", Package, env)
    else
      Ok(withReferences)
  }

  /** `GetPackageSpec`, as a value: None when no item is a `ProjectSpec`, an error when two
      are (`SingleOrDefault`), otherwise the spec built around the one that is. */
  function PackageSpecValue(items: seq<Item>, env: Collaborators): Result<Option<SpecValue>, Error> {
    var specItems := GetItemByType(items, "ProjectSpec");
    if |specItems| > 1 then Err(MoreThanOneProjectSpec)
    else if specItems == [] then Ok(None)
    else
      var s :- SpecFromItem(specItems[0], items, env);
      Ok(Some(s))
  }

  // ----- classification -----

  /** The item's `Type`, lower-cased invariantly, is `restorespec`. */
  predicate IsRestoreSpec(item: Item) {
    var t := GetProperty(item, "Type");
    t.Some? && Lower(t.value) == "restorespec"
  }

  /** The item is not a restore root and names project `key`, compared case-sensitively. */
  predicate BelongsTo(item: Item, key: string) {
    !IsRestoreSpec(item) && GetProperty(item, "ProjectUniqueName") == Some(key)
  }

  /** The restore roots: the `ProjectUniqueName` of every restore-spec item, possibly null, in
      input order and with duplicates. */
  function RestoreRoots(items: seq<Item>): seq<Option<string>>
    decreases |items|
  {
    if items == [] then []
    else
      var roots := RestoreRoots(items[..|items| - 1]);
      var last := items[|items| - 1];
      if IsRestoreSpec(last) then roots + [GetProperty(last, "ProjectUniqueName")] else roots
  }

  /** The items of project `key`, in input order. */
  function ItemsOfProject(items: seq<Item>, key: string): (r: seq<Item>)
    ensures forall x :: x in r <==> x in items && BelongsTo(x, key)
    decreases |items|
  {
    if items == [] then []
    else
      var init := items[..|items| - 1];
      var last := items[|items| - 1];
      assert items == init + [last];
      var rest := ItemsOfProject(init, key);
      if BelongsTo(last, key) then rest + [last] else rest
  }

  /** The buckets `GetDependencySpec` builds: items that are not restore roots, grouped by a
      non-empty `ProjectUniqueName`. */
  function Buckets(items: seq<Item>): map<string, seq<Item>>
    decreases |items|
  {
    if items == [] then map[]
    else
      var buckets := Buckets(items[..|items| - 1]);
      var last := items[|items| - 1];
      var key := GetProperty(last, "ProjectUniqueName");
      if IsRestoreSpec(last) || IsNullOrEmpty(key) then buckets
      else buckets[key.value := (if key.value in buckets then buckets[key.value] else []) + [last]]
  }

  /** Every dependency of the spec, global or per framework, is a project dependency for all
      versions. */
  predicate OnlyProjectDependencies(s: SpecValue) {
    && (forall d :: d in s.dependencies ==> d.target == ProjectOrExternalProject && d.versionRange == AllVersions)
    && (forall g, d :: g in s.targetFrameworks && d in s.targetFrameworks[g] ==>
          d.target == ProjectOrExternalProject && d.versionRange == AllVersions)
  }

  /** Every global dependency of the spec is named by the `ProjectReferenceUniqueName` of some
      `ProjectReference` item. */
  predicate GlobalsNameReferences(s: SpecValue, items: seq<Item>) {
    forall d :: d in s.dependencies ==>
      exists j :: 0 <= j < |items| && HasType(items[j], "ProjectReference")
                  && d.name == GetProperty(items[j], "ProjectReferenceUniqueName")
  }

  /** One more item extends the roots and the buckets as the classifying loop does. */
  lemma ClassifyStep(items: seq<Item>, i: nat)
    requires i < |items|
    ensures var key := GetProperty(items[i], "ProjectUniqueName");
            && RestoreRoots(items[..i + 1])
               == (if IsRestoreSpec(items[i]) then RestoreRoots(items[..i]) + [key] else RestoreRoots(items[..i]))
            && Buckets(items[..i + 1])
               == (if IsRestoreSpec(items[i]) || IsNullOrEmpty(key) then Buckets(items[..i])
                   else var b := Buckets(items[..i]);
                        b[key.value := (if key.value in b then b[key.value] else []) + [items[i]]])
  {
    assert items[..i + 1][..i] == items[..i];
  }

  /** One more item adds its reference at the end. */
  lemma ReferencesOfStep(items: seq<Item>, i: nat)
    requires i < |items|
    ensures ReferencesOf(items[..i + 1]) == ReferencesOf(items[..i]) + [ReferenceOf(items[i])]
  {
  }

  // ----- properties -----

  /** Each project's bucket is exactly the filter of the input on that project name: items keep
      their input order, restore roots and items with a null or empty project name join no
      bucket, and there is a bucket for every non-empty name some other item carries. */
  lemma {:induction false} BucketsAreFilters(items: seq<Item>)
    ensures forall key :: key in Buckets(items) <==> key != "" && ItemsOfProject(items, key) != []
    ensures forall key :: key in Buckets(items) ==> Buckets(items)[key] == ItemsOfProject(items, key)
    decreases |items|
  {
    if items != [] {
      var init := items[..|items| - 1];
      BucketsAreFilters(init);
    }
  }

  /** Restore roots of a concatenation are the roots of each part, in order. */
  lemma {:induction false} RestoreRootsConcat(a: seq<Item>, b: seq<Item>)
    ensures RestoreRoots(a + b) == RestoreRoots(a) + RestoreRoots(b)
    decreases |b|
  {
    if b == [] {
      assert a + b == a;
    } else {
      var ab := a + b;
      assert ab[..|ab| - 1] == a + b[..|b| - 1];
      RestoreRootsConcat(a, b[..|b| - 1]);
    }
  }

  /** A restore-spec item contributes its project name to the roots and nothing to any bucket. */
  lemma RestoreItemPlacement(items: seq<Item>, i: nat)
    requires i < |items| && IsRestoreSpec(items[i])
    ensures GetProperty(items[i], "ProjectUniqueName") in RestoreRoots(items)
    ensures forall key :: key in Buckets(items) ==> items[i] !in Buckets(items)[key]
  {
    BucketsAreFilters(items);
    assert items == items[..i] + [items[i]] + items[i + 1..];
    RestoreRootsConcat(items[..i] + [items[i]], items[i + 1..]);
    RestoreRootsConcat(items[..i], [items[i]]);
    assert [items[i]][..0] == [];
  }

  /** Extending a successful prefix by an item that also succeeds extends the entries by its entry. */
  lemma EntriesStep(items: seq<Item>, i: nat, target: DependencyTarget, env: Collaborators)
    requires i < |items|
    requires Entries(items[..i], target, env).Ok?
    requires EntryOf(items[i], target, env).Ok?
    ensures Entries(items[..i + 1], target, env)
         == Ok(Entries(items[..i], target, env).value + [EntryOf(items[i], target, env).value])
  {
    assert items[..i + 1][..i] == items[..i];
  }

  /** The entries of the whole sequence fail with the error of the first item that fails. */
  lemma EntriesStopAt(items: seq<Item>, i: nat, target: DependencyTarget, env: Collaborators)
    requires i < |items|
    requires Entries(items[..i], target, env).Ok?
    requires EntryOf(items[i], target, env).Err?
    ensures Entries(items, target, env) == Err(EntryOf(items[i], target, env).error)
  {
    assert items[..i + 1][..i] == items[..i];
    EntriesKeepError(items, i + 1, target, env);
  }

  /** Once a prefix fails, every longer prefix fails with the same error. */
  lemma {:induction false} EntriesKeepError(items: seq<Item>, n: nat, target: DependencyTarget, env: Collaborators)
    requires n <= |items|
    requires Entries(items[..n], target, env).Err?
    ensures Entries(items, target, env) == Entries(items[..n], target, env)
    decreases |items|
  {
    if n < |items| {
      var init := items[..|items| - 1];
      assert init[..n] == items[..n];
      EntriesKeepError(init, n, target, env);
    } else {
      assert items[..n] == items;
    }
  }

  /** Adding framework assemblies or packages does not look at the metadata, so two specs that
      agree up to the order of their project references still agree afterwards. */
  lemma ItemsIgnoreMetadata(a: SpecValue, b: SpecValue, items: seq<Item>, itemType: string,
                            target: DependencyTarget, env: Collaborators)
    requires a.(metadata := b.metadata) == b && SameMetadataUpToOrder(a.metadata, b.metadata)
    ensures var ra := AddDependencyItemsValue(a, items, itemType, target, env);
            var rb := AddDependencyItemsValue(b, items, itemType, target, env);
            && ra.Ok? == rb.Ok?
            && (ra.Err? ==> ra.error == rb.error)
            && (ra.Ok? ==> ra.value.(metadata := rb.value.metadata) == rb.value
                           && SameMetadataUpToOrder(ra.value.metadata, rb.value.metadata))
  {
  }

  /** `GetPackageSpec` produces no spec exactly when no item's `Type` is `ProjectSpec`,
      ignoring case. */
  lemma NoSpecWithoutProjectSpecItem(items: seq<Item>, env: Collaborators)
    ensures PackageSpecValue(items, env) == Ok(None) <==>
            forall i :: 0 <= i < |items| ==> !HasType(items[i], "ProjectSpec")
  {
  }

  /** `GetPackageSpec` fails, rather than choosing one, exactly when two items are `ProjectSpec`
      items. */
  lemma TwoProjectSpecItemsFail(items: seq<Item>, env: Collaborators)
    ensures PackageSpecValue(items, env) == Err(MoreThanOneProjectSpec) <==>
            exists i, j :: 0 <= i < j < |items| && HasType(items[i], "ProjectSpec") && HasType(items[j], "ProjectSpec")
  {
    TwoOfType(items, "ProjectSpec");
    var specItems := GetItemByType(items, "ProjectSpec");
    if |specItems| == 1 {
      SpecFromItemNeverReportsCount(specItems[0], items, env);
    }
  }

  /** Apart from `SingleOrDefault`, every error comes from a parser or the project.json reader. */
  lemma SpecFromItemNeverReportsCount(specItem: Item, items: seq<Item>, env: Collaborators)
    ensures SpecFromItem(specItem, items, env) != Err(MoreThanOneProjectSpec)
  {
    StrategyNeverReportsCount(specItem, env);
    AddedItemsNeverReportCount(items, env);
  }

  lemma StrategyNeverReportsCount(specItem: Item, env: Collaborators)
    ensures StrategySpecValue(specItem, env) != Err(MoreThanOneProjectSpec)
  {
    FrameworksNeverReportCount(specItem, env);
  }

  lemma AddedItemsNeverReportCount(items: seq<Item>, env: Collaborators)
    ensures forall s :: AddProjectReferencesValue(s, items, env) != Err(MoreThanOneProjectSpec)
    ensures forall s :: AddDependencyItemsValue(s, items, "FrameworkAssembly", Reference, env) != Err(MoreThanOneProjectSpec)
    ensures forall s :: AddDependencyItemsValue(s, items, "Dependency", Package, env) != Err(MoreThanOneProjectSpec)
  {
    EntriesNeverReportCount(GetItemByType(items, "ProjectReference"), ProjectOrExternalProject, env);
    EntriesNeverReportCount(GetItemByType(items, "FrameworkAssembly"), Reference, env);
    EntriesNeverReportCount(GetItemByType(items, "Dependency"), Package, env);
  }

  lemma FrameworksNeverReportCount(item: Item, env: Collaborators)
    ensures GetFrameworks(item, env) != Err(MoreThanOneProjectSpec)
  {
    var fw := GetFrameworks(item, env);
    if fw.Err? {
      var text := GetProperty(item, "TargetFrameworks");
      assert fw.error.FrameworkParseError?;
    }
  }

  lemma EntriesNeverReportCount(items: seq<Item>, target: DependencyTarget, env: Collaborators)
    ensures Entries(items, target, env) != Err(MoreThanOneProjectSpec)
  {
    var r := Entries(items, target, env);
    if r.Err? {
      var i :| 0 <= i < |items| && EntryOf(items[i], target, env) == Err(r.error);
      FrameworksNeverReportCount(items[i], env);
    }
  }

  /** A produced spec is built around the one `ProjectSpec` item. */
  lemma BuiltAroundSpecItem(items: seq<Item>, env: Collaborators, s: SpecValue, i: nat)
    requires PackageSpecValue(items, env) == Ok(Some(s))
    requires i < |items| && HasType(items[i], "ProjectSpec")
    ensures SpecFromItem(items[i], items, env) == Ok(s)
  {
    SpecFromSoleItem(items, env, s);
    SoleOfType(items, "ProjectSpec", i);
  }

  lemma SpecFromSoleItem(items: seq<Item>, env: Collaborators, s: SpecValue)
    requires PackageSpecValue(items, env) == Ok(Some(s))
    ensures |GetItemByType(items, "ProjectSpec")| == 1
    ensures SpecFromItem(GetItemByType(items, "ProjectSpec")[0], items, env) == Ok(s)
  {
  }

  /** How a spec built around `specItem` relates to its strategy's spec: the metadata carries
      the item's output type, `ProjectPath` and `ProjectUniqueName`; the lists are the
      strategy's, then the project references' dependencies, and only for `NETCore` the framework
      assemblies' and then the packages'; one project reference per `ProjectReference` item is
      appended; the framework entries, file path and name are the strategy's; and every list
      stays free of duplicate names when the strategy's lists are. */
  lemma SpecFromStrategy(specItem: Item, items: seq<Item>, env: Collaborators, s: SpecValue)
    requires SpecFromItem(specItem, items, env) == Ok(s)
    ensures StrategySpecValue(specItem, env).Ok?
    ensures var base := StrategySpecValue(specItem, env).value;
            var outputType := ParseOutputType(GetProperty(specItem, "OutputType"));
            var references := Entries(GetItemByType(items, "ProjectReference"), ProjectOrExternalProject, env);
            var assemblies := Entries(GetItemByType(items, "FrameworkAssembly"), Reference, env);
            var packages := Entries(GetItemByType(items, "Dependency"), Package, env);
            && references.Ok?
            && (outputType == NETCore ==>
                  (assemblies.Ok? && packages.Ok? &&
                   s.Lists() == IngestAll(base.Lists(), references.value + assemblies.value + packages.value, env)))
            && (outputType != NETCore ==> s.Lists() == IngestAll(base.Lists(), references.value, env))
            && s.targetFrameworks.Keys == base.targetFrameworks.Keys
            && (ListsUnique(base.Lists()) ==> ListsUnique(s.Lists()))
            && s.filePath == base.filePath && s.name == base.name
            && s.metadata == base.metadata.(
                 outputType := outputType,
                 projectPath := GetProperty(specItem, "ProjectPath"),
                 projectUniqueName := GetProperty(specItem, "ProjectUniqueName"),
                 projectReferences := base.metadata.projectReferences + ReferencesOf(GetItemByType(items, "ProjectReference")))
  {
    var base := StrategySpecValue(specItem, env).value;
    var outputType := ParseOutputType(GetProperty(specItem, "OutputType"));
    var references := Entries(GetItemByType(items, "ProjectReference"), ProjectOrExternalProject, env).value;
    IngestAllExtends(base.Lists(), references, env);
    if outputType == NETCore {
      var assemblies := Entries(GetItemByType(items, "FrameworkAssembly"), Reference, env).value;
      var packages := Entries(GetItemByType(items, "Dependency"), Package, env).value;
      IngestAllConcat(base.Lists(), references, assemblies, env);
      IngestAllConcat(base.Lists(), references + assemblies, packages, env);
      IngestAllExtends(base.Lists(), references + assemblies + packages, env);
    }
  }

  /** The lists of a spec built around `specItem`, for a type other than `NETCore`: the
      strategy's lists after the project references. */
  lemma SpecListsFromStrategy(specItem: Item, items: seq<Item>, env: Collaborators, s: SpecValue)
    requires SpecFromItem(specItem, items, env) == Ok(s)
    requires ParseOutputType(GetProperty(specItem, "OutputType")) != NETCore
    ensures StrategySpecValue(specItem, env).Ok?
    ensures Entries(GetItemByType(items, "ProjectReference"), ProjectOrExternalProject, env).Ok?
    ensures s.Lists() == IngestAll(StrategySpecValue(specItem, env).value.Lists(),
                                   Entries(GetItemByType(items, "ProjectReference"), ProjectOrExternalProject, env).value, env)
  {
  }

  /** Both strategies start from fresh metadata: no output type, path, unique name or
      project reference yet. */
  lemma StrategyMetadataFresh(specItem: Item, env: Collaborators)
    requires StrategySpecValue(specItem, env).Ok?
    ensures var m := StrategySpecValue(specItem, env).value.metadata;
            m.projectReferences == [] && m.outputType == Unknown && m.projectPath == None && m.projectUniqueName == None
  {
  }

  // The lemmas below come in pairs. The one indexed by a `ProjectSpec` item of the bucket is
  // the statement about `PackageSpecValue`; its partner taking `specItem` states the same fact
  // about `SpecFromItem` and exists only to keep each proof small.

  /** Whatever the strategy, the spec's metadata carries the output type parsed from the
      `ProjectSpec` item and that item's `ProjectPath` and `ProjectUniqueName`, and one
      project reference per `ProjectReference` item. */
  lemma MetadataFromProjectSpecItem(items: seq<Item>, env: Collaborators, s: SpecValue, i: nat)
    requires PackageSpecValue(items, env) == Ok(Some(s))
    requires i < |items| && HasType(items[i], "ProjectSpec")
    ensures s.metadata.outputType == ParseOutputType(GetProperty(items[i], "OutputType"))
    ensures s.metadata.projectPath == GetProperty(items[i], "ProjectPath")
    ensures s.metadata.projectUniqueName == GetProperty(items[i], "ProjectUniqueName")
    ensures s.metadata.projectReferences == ReferencesOf(GetItemByType(items, "ProjectReference"))
  {
    BuiltAroundSpecItem(items, env, s, i);
    MetadataOfSpec(items[i], items, env, s);
  }

  lemma MetadataOfSpec(specItem: Item, items: seq<Item>, env: Collaborators, s: SpecValue)
    requires SpecFromItem(specItem, items, env) == Ok(s)
    ensures s.metadata.outputType == ParseOutputType(GetProperty(specItem, "OutputType"))
    ensures s.metadata.projectPath == GetProperty(specItem, "ProjectPath")
    ensures s.metadata.projectUniqueName == GetProperty(specItem, "ProjectUniqueName")
    ensures s.metadata.projectReferences == ReferencesOf(GetItemByType(items, "ProjectReference"))
  {
    SpecFromStrategy(specItem, items, env, s);
    StrategyMetadataFresh(specItem, env);
  }

  /** The generic strategy (`Unknown` and `NETCore`): `FilePath` is `ProjectPath`, the name is
      the base name, there is exactly one framework entry per distinct parsed token of
      `TargetFrameworks` (none when it is empty), no project.json path or metadata name, and
      no list holds a name twice. */
  lemma BaseStrategyShape(items: seq<Item>, env: Collaborators, s: SpecValue, i: nat)
    requires PackageSpecValue(items, env) == Ok(Some(s))
    requires i < |items| && HasType(items[i], "ProjectSpec")
    requires ParseOutputType(GetProperty(items[i], "OutputType")) != UAP
    ensures s.filePath == GetProperty(items[i], "ProjectPath")
    ensures s.name == BaseSpecName(items[i], env)
    ensures GetFrameworks(items[i], env).Ok? && s.targetFrameworks.Keys == GetFrameworks(items[i], env).value
    ensures IsNullOrEmpty(GetProperty(items[i], "TargetFrameworks")) ==> s.targetFrameworks == map[]
    ensures s.metadata.projectJsonPath == None && s.metadata.projectName == None
    ensures ListsUnique(s.Lists())
  {
    BuiltAroundSpecItem(items, env, s, i);
    BaseShapeOfSpec(items[i], items, env, s);
  }

  lemma BaseShapeOfSpec(specItem: Item, items: seq<Item>, env: Collaborators, s: SpecValue)
    requires SpecFromItem(specItem, items, env) == Ok(s)
    requires ParseOutputType(GetProperty(specItem, "OutputType")) != UAP
    ensures s.filePath == GetProperty(specItem, "ProjectPath")
    ensures s.name == BaseSpecName(specItem, env)
    ensures GetFrameworks(specItem, env).Ok? && s.targetFrameworks.Keys == GetFrameworks(specItem, env).value
    ensures IsNullOrEmpty(GetProperty(specItem, "TargetFrameworks")) ==> s.targetFrameworks == map[]
    ensures s.metadata.projectJsonPath == None && s.metadata.projectName == None
    ensures ListsUnique(s.Lists())
  {
    SpecFromStrategy(specItem, items, env, s);
  }

  /** The UAP strategy: the spec is the one read from `ProjectJsonPath` under the file-name stem
      of `ProjectPath` (`ProjectName` is not consulted), and its metadata records both. */
  lemma UAPStrategyShape(items: seq<Item>, env: Collaborators, s: SpecValue, i: nat)
    requires PackageSpecValue(items, env) == Ok(Some(s))
    requires i < |items| && HasType(items[i], "ProjectSpec")
    requires ParseOutputType(GetProperty(items[i], "OutputType")) == UAP
    ensures var stem := FileNameWithoutExtension(env, GetProperty(items[i], "ProjectPath"));
            var jsonPath := GetProperty(items[i], "ProjectJsonPath");
            && env.readProjectJson(stem, jsonPath).Some?
            && s.filePath == env.readProjectJson(stem, jsonPath).value.filePath
            && s.name == env.readProjectJson(stem, jsonPath).value.name
            && s.targetFrameworks.Keys == env.readProjectJson(stem, jsonPath).value.targetFrameworks.Keys
            && s.metadata.projectJsonPath == jsonPath
            && s.metadata.projectName == stem
  {
    BuiltAroundSpecItem(items, env, s, i);
    SpecFromStrategy(items[i], items, env, s);
  }

  /** For `Unknown`, every dependency, global or per framework, is a project dependency for all
      versions: framework assemblies and packages are ignored. */
  lemma UnknownHasOnlyProjectDependencies(items: seq<Item>, env: Collaborators, s: SpecValue, i: nat)
    requires PackageSpecValue(items, env) == Ok(Some(s))
    requires i < |items| && HasType(items[i], "ProjectSpec")
    requires ParseOutputType(GetProperty(items[i], "OutputType")) == Unknown
    ensures OnlyProjectDependencies(s)
  {
    BuiltAroundSpecItem(items, env, s, i);
    UnknownDependencyTargets(items[i], items, env, s);
  }

  /** For `Unknown`, every global dependency is named by some `ProjectReference` item. */
  lemma UnknownDependenciesNameReferences(items: seq<Item>, env: Collaborators, s: SpecValue, i: nat)
    requires PackageSpecValue(items, env) == Ok(Some(s))
    requires i < |items| && HasType(items[i], "ProjectSpec")
    requires ParseOutputType(GetProperty(items[i], "OutputType")) == Unknown
    ensures GlobalsNameReferences(s, items)
  {
    BuiltAroundSpecItem(items, env, s, i);
    UnknownDependencyNames(items[i], items, env, s);
  }

  lemma UnknownDependencyTargets(specItem: Item, items: seq<Item>, env: Collaborators, s: SpecValue)
    requires SpecFromItem(specItem, items, env) == Ok(s)
    requires ParseOutputType(GetProperty(specItem, "OutputType")) == Unknown
    ensures OnlyProjectDependencies(s)
  {
    var references := UnknownListsFromReferences(specItem, items, env, s);
    ReferenceEntries(GetItemByType(items, "ProjectReference"), env, references);
  }

  lemma UnknownDependencyNames(specItem: Item, items: seq<Item>, env: Collaborators, s: SpecValue)
    requires SpecFromItem(specItem, items, env) == Ok(s)
    requires ParseOutputType(GetProperty(specItem, "OutputType")) == Unknown
    ensures GlobalsNameReferences(s, items)
  {
    var referenceItems := GetItemByType(items, "ProjectReference");
    var references := UnknownListsFromReferences(specItem, items, env, s);
    ReferenceEntries(referenceItems, env, references);
    forall d | d in s.dependencies
      ensures exists j :: 0 <= j < |items| && HasType(items[j], "ProjectReference")
                          && d.name == GetProperty(items[j], "ProjectReferenceUniqueName")
    {
      var k :| 0 <= k < |references| && references[k].dependency == d;
      TypedItemPosition(items, "ProjectReference", k);
    }
  }

  /** For `Unknown`, every dependency in the lists is the dependency of a project-reference
      entry. */
  lemma UnknownListsFromReferences(specItem: Item, items: seq<Item>, env: Collaborators, s: SpecValue)
    returns (references: seq<Entry>)
    requires SpecFromItem(specItem, items, env) == Ok(s)
    requires ParseOutputType(GetProperty(specItem, "OutputType")) == Unknown
    ensures Entries(GetItemByType(items, "ProjectReference"), ProjectOrExternalProject, env) == Ok(references)
    ensures forall d :: d in s.dependencies ==> exists k :: 0 <= k < |references| && references[k].dependency == d
    ensures forall g, d :: g in s.targetFrameworks && d in s.targetFrameworks[g] ==>
              exists k :: 0 <= k < |references| && references[k].dependency == d
  {
    SpecListsFromStrategy(specItem, items, env, s);
    var base := BaseSpecValue(specItem, env).value;
    BaseListsEmpty(specItem, env);
    references := Entries(GetItemByType(items, "ProjectReference"), ProjectOrExternalProject, env).value;
    IngestAllOrigins(base.Lists(), references, env);
  }

  /** The base strategy's lists are empty. */
  lemma BaseListsEmpty(specItem: Item, env: Collaborators)
    requires BaseSpecValue(specItem, env).Ok?
    ensures var l := BaseSpecValue(specItem, env).value.Lists();
            l.global == [] && forall g :: g in l.frameworks ==> l.frameworks[g] == []
  {
  }

  /** A `ProjectReference` item's entry is a project dependency on its unique name, for all versions. */
  lemma ReferenceEntries(referenceItems: seq<Item>, env: Collaborators, references: seq<Entry>)
    requires Entries(referenceItems, ProjectOrExternalProject, env) == Ok(references)
    ensures |references| == |referenceItems|
    ensures forall k :: 0 <= k < |references| ==>
              references[k].dependency == Dependency(GetProperty(referenceItems[k], "ProjectReferenceUniqueName"), AllVersions, ProjectOrExternalProject)
  {
    forall k | 0 <= k < |references|
      ensures references[k].dependency == Dependency(GetProperty(referenceItems[k], "ProjectReferenceUniqueName"), AllVersions, ProjectOrExternalProject)
    {
      assert EntryOf(referenceItems[k], ProjectOrExternalProject, env) == Ok(references[k]);
    }
  }

  /** For `NETCore`, a malformed non-empty `VersionRange` on a framework-assembly or package
      item makes the whole call fail. */
  lemma MalformedVersionRangeFails(items: seq<Item>, env: Collaborators, i: nat, k: nat)
    requires i < |items| && HasType(items[i], "ProjectSpec")
    requires forall j :: 0 <= j < |items| && j != i ==> !HasType(items[j], "ProjectSpec")
    requires ParseOutputType(GetProperty(items[i], "OutputType")) == NETCore
    requires k < |items| && (HasType(items[k], "FrameworkAssembly") || HasType(items[k], "Dependency"))
    requires GetVersionRange(items[k], env).Err?
    ensures PackageSpecValue(items, env).Err?
  {
    TwoOfType(items, "ProjectSpec");
    SoleOfType(items, "ProjectSpec", i);
    MalformedVersionRangeFailsSpec(items[i], items, env, k);
  }

  lemma MalformedVersionRangeFailsSpec(specItem: Item, items: seq<Item>, env: Collaborators, k: nat)
    requires ParseOutputType(GetProperty(specItem, "OutputType")) == NETCore
    requires k < |items| && (HasType(items[k], "FrameworkAssembly") || HasType(items[k], "Dependency"))
    requires GetVersionRange(items[k], env).Err?
    ensures SpecFromItem(specItem, items, env).Err?
  {
    if HasType(items[k], "FrameworkAssembly") {
      MalformedItemFails(items, "FrameworkAssembly", Reference, env, k);
    } else {
      MalformedItemFails(items, "Dependency", Package, env, k);
    }
  }

  /** One item of the type with a malformed version range makes the whole pass fail. */
  lemma MalformedItemFails(items: seq<Item>, itemType: string, target: DependencyTarget, env: Collaborators, k: nat)
    requires target != ProjectOrExternalProject
    requires k < |items| && HasType(items[k], itemType)
    requires GetVersionRange(items[k], env).Err?
    ensures forall s :: AddDependencyItemsValue(s, items, itemType, target, env).Err?
  {
    var typed := GetItemByType(items, itemType);
    assert items[k] in typed;
    var n :| 0 <= n < |typed| && typed[n] == items[k];
    assert EntryOf(typed[n], target, env).Err?;
  }

  // ----- the first global item of a name wins -----

  /** The item's entry reads, names no framework, and its dependency's name equals `name`
      ignoring case. */
  predicate GlobalEntryNamed(item: Item, target: DependencyTarget, env: Collaborators, name: Option<string>) {
    var e := EntryOf(item, target, env);
    e.Ok? && e.value.frameworks == {} && NameEquals(e.value.dependency.name, name)
  }

  /** Every entry of a pass comes from an item of that type. */
  lemma EntryFromItem(items: seq<Item>, itemType: string, target: DependencyTarget, env: Collaborators,
                      es: seq<Entry>, j: nat)
    requires Entries(GetItemByType(items, itemType), target, env) == Ok(es)
    requires j < |es|
    ensures exists i :: 0 <= i < |items| && HasType(items[i], itemType) && EntryOf(items[i], target, env) == Ok(es[j])
  {
    TypedItemPosition(items, itemType, j);
  }

  /** When no item of the type has a global entry named `name`, no entry of the pass has one. */
  lemma NoGlobalEntryNamed(items: seq<Item>, itemType: string, target: DependencyTarget, env: Collaborators,
                           es: seq<Entry>, name: Option<string>)
    requires Entries(GetItemByType(items, itemType), target, env) == Ok(es)
    requires forall i :: 0 <= i < |items| && HasType(items[i], itemType) ==> !GlobalEntryNamed(items[i], target, env, name)
    ensures forall j :: 0 <= j < |es| && es[j].frameworks == {} ==> !NameEquals(es[j].dependency.name, name)
  {
    forall j | 0 <= j < |es| && es[j].frameworks == {}
      ensures !NameEquals(es[j].dependency.name, name)
    {
      EntryFromItem(items, itemType, target, env, es, j);
    }
  }

  /** Within one pass over the items of a type, the first item with a global entry of a name
      wins: when the lists start without the name, its dependency is in the end the one global
      dependency of that name, whatever the later items of the type say. */
  lemma FirstGlobalItemWins(l: DependencyLists, items: seq<Item>, itemType: string, target: DependencyTarget,
                            env: Collaborators, k: nat)
    requires k < |items| && HasType(items[k], itemType)
    requires Entries(GetItemByType(items, itemType), target, env).Ok?
    requires EntryOf(items[k], target, env).Ok? && EntryOf(items[k], target, env).value.frameworks == {}
    requires !HasName(l.global, EntryOf(items[k], target, env).value.dependency.name)
    requires forall i :: 0 <= i < k && HasType(items[i], itemType) ==>
               !GlobalEntryNamed(items[i], target, env, EntryOf(items[k], target, env).value.dependency.name)
    ensures var d := EntryOf(items[k], target, env).value.dependency;
            var g := IngestAll(l, Entries(GetItemByType(items, itemType), target, env).value, env).global;
            d in g && forall i :: 0 <= i < |g| && NameEquals(g[i].name, d.name) ==> g[i] == d
  {
    var typed := GetItemByType(items, itemType);
    var es := Entries(typed, target, env).value;
    var n := PositionInFilter(items, itemType, k);
    assert EntryOf(typed[n], target, env) == Ok(es[n]);
    var name := es[n].dependency.name;
    forall j | 0 <= j < n && es[j].frameworks == {}
      ensures !NameEquals(es[j].dependency.name, name)
    {
      assert EntryOf(typed[j], target, env) == Ok(es[j]);
      assert typed[j] in typed[..n];
      var before := items[..k];
      var i :| 0 <= i < |before| && before[i] == typed[j];
      assert items[i] == typed[j] && HasType(items[i], itemType);
    }
    EarliestGlobalWins(l, es, env, n);
  }

  /** The lists of a `NETCore` spec: the base lists after the project references and the
      framework assemblies, then the packages. */
  lemma NETCoreListsSplit(specItem: Item, items: seq<Item>, env: Collaborators, s: SpecValue)
    requires SpecFromItem(specItem, items, env) == Ok(s)
    requires ParseOutputType(GetProperty(specItem, "OutputType")) == NETCore
    ensures BaseSpecValue(specItem, env).Ok?
    ensures Entries(GetItemByType(items, "ProjectReference"), ProjectOrExternalProject, env).Ok?
    ensures Entries(GetItemByType(items, "FrameworkAssembly"), Reference, env).Ok?
    ensures Entries(GetItemByType(items, "Dependency"), Package, env).Ok?
    ensures s.dependencies ==
            IngestAll(IngestAll(BaseSpecValue(specItem, env).value.Lists(),
                                Entries(GetItemByType(items, "ProjectReference"), ProjectOrExternalProject, env).value
                                + Entries(GetItemByType(items, "FrameworkAssembly"), Reference, env).value, env),
                      Entries(GetItemByType(items, "Dependency"), Package, env).value, env).global
  {
    var references := Entries(GetItemByType(items, "ProjectReference"), ProjectOrExternalProject, env).value;
    var assemblies := Entries(GetItemByType(items, "FrameworkAssembly"), Reference, env).value;
    var packages := Entries(GetItemByType(items, "Dependency"), Package, env).value;
    var base := BaseSpecValue(specItem, env).value;
    IngestAllConcat(base.Lists(), references, assemblies, env);
    IngestAllConcat(base.Lists(), references + assemblies, packages, env);
  }

  /** Earlier kinds win, for packages: in a `NETCore` spec, the first `Dependency` item with a
      global entry of a name is the one global dependency of that name, provided no
      `ProjectReference` or `FrameworkAssembly` item has a global entry of that name. */
  lemma FirstGlobalPackageWins(specItem: Item, items: seq<Item>, env: Collaborators, s: SpecValue, k: nat)
    requires SpecFromItem(specItem, items, env) == Ok(s)
    requires ParseOutputType(GetProperty(specItem, "OutputType")) == NETCore
    requires k < |items| && HasType(items[k], "Dependency")
    requires EntryOf(items[k], Package, env).Ok? && EntryOf(items[k], Package, env).value.frameworks == {}
    requires var name := EntryOf(items[k], Package, env).value.dependency.name;
             && (forall i :: 0 <= i < |items| && HasType(items[i], "ProjectReference") ==>
                   !GlobalEntryNamed(items[i], ProjectOrExternalProject, env, name))
             && (forall i :: 0 <= i < |items| && HasType(items[i], "FrameworkAssembly") ==>
                   !GlobalEntryNamed(items[i], Reference, env, name))
             && (forall i :: 0 <= i < k && HasType(items[i], "Dependency") ==>
                   !GlobalEntryNamed(items[i], Package, env, name))
    ensures var d := EntryOf(items[k], Package, env).value.dependency;
            d in s.dependencies &&
            forall i :: 0 <= i < |s.dependencies| && NameEquals(s.dependencies[i].name, d.name) ==> s.dependencies[i] == d
  {
    NETCoreListsSplit(specItem, items, env, s);
    var references := Entries(GetItemByType(items, "ProjectReference"), ProjectOrExternalProject, env).value;
    var assemblies := Entries(GetItemByType(items, "FrameworkAssembly"), Reference, env).value;
    var base := BaseSpecValue(specItem, env).value;
    var name := EntryOf(items[k], Package, env).value.dependency.name;
    BaseListsEmpty(specItem, env);
    NoGlobalEntryNamed(items, "ProjectReference", ProjectOrExternalProject, env, references, name);
    NoGlobalEntryNamed(items, "FrameworkAssembly", Reference, env, assemblies, name);
    NoEarlierKindNamed(base.Lists(), references, assemblies, env, name);
    FirstGlobalItemWins(IngestAll(base.Lists(), references + assemblies, env), items, "Dependency", Package, env, k);
  }

  /** Entries of project references and framework assemblies without a global entry of a
      name leave the name out of empty starting lists. */
  lemma NoEarlierKindNamed(l: DependencyLists, references: seq<Entry>, assemblies: seq<Entry>,
                           env: Collaborators, name: Option<string>)
    requires l.global == []
    requires forall j :: 0 <= j < |references| && references[j].frameworks == {} ==>
               !NameEquals(references[j].dependency.name, name)
    requires forall j :: 0 <= j < |assemblies| && assemblies[j].frameworks == {} ==>
               !NameEquals(assemblies[j].dependency.name, name)
    ensures !HasName(IngestAll(l, references + assemblies, env).global, name)
  {
    var es := references + assemblies;
    forall j | 0 <= j < |es| && es[j].frameworks == {}
      ensures !NameEquals(es[j].dependency.name, name)
    {
      if j < |references| {
        assert es[j] == references[j];
      } else {
        assert es[j] == assemblies[j - |references|];
      }
    }
    GlobalNameOrigins(l, es, env, name);
  }
}
