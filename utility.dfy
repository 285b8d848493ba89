/** `MSBuildRestoreUtility` itself: the methods that create `PackageSpec` objects and fill
    them in place, and the one that sorts the items and fills a `DependencyGraphSpec`. Each
    method is proved against the value-level definitions of `RestoreSpec` and
    `DependencyInsertion`, whose properties are proved there. */
module MSBuildRestoreUtility {
  import opened Wrappers
  import opened Text
  import opened MSBuildItems
  import opened ProjectModel
  import opened DependencyInsertion
  import opened RestoreSpec

  // ----- the two insertion rules -----

  /** `AddDependencyIfNotExist(spec, dependency)`: append to the global list unless a global
      dependency has the name already; report whether it was appended. */
  method AddDependencyIfNotExist(spec: PackageSpec, dependency: Dependency) returns (added: bool)
    modifies spec
    ensures added <==> !HasName(old(spec.dependencies), dependency.name)
    ensures spec.Value() == old(spec.Value()).(dependencies := InsertGlobal(old(spec.dependencies), dependency))
  {
    if !HasName(spec.dependencies, dependency.name) {
      spec.dependencies := spec.dependencies + [dependency];
      added := true;
    } else {
      added := false;
    }
  }

  /** `AddDependencyIfNotExist(spec, framework, dependency)`: append to the list of the entry
      `GetTargetFramework` returns unless the global list or that list has the name already;
      an entry that is not attached to the spec takes the dependency with it. */
  method AddFrameworkDependencyIfNotExist(spec: PackageSpec, framework: Framework, dependency: Dependency,
                                          env: Collaborators) returns (added: bool)
    modifies spec
    ensures var slot := TargetFrameworkSlot(env, old(spec.targetFrameworks).Keys, framework);
            var list := if slot.Some? then old(spec.targetFrameworks)[slot.value] else [];
            && (added <==> !HasName(old(spec.dependencies) + list, dependency.name))
            && spec.Value() == old(spec.Value()).(targetFrameworks :=
                 if added && slot.Some? then old(spec.targetFrameworks)[slot.value := list + [dependency]]
                 else old(spec.targetFrameworks))
  {
    var slot := TargetFrameworkSlot(env, spec.targetFrameworks.Keys, framework);
    var list := if slot.Some? then spec.targetFrameworks[slot.value] else [];
    if !HasName(spec.dependencies + list, dependency.name) {
      if slot.Some? {
        spec.targetFrameworks := spec.targetFrameworks[slot.value := list + [dependency]];
      }
      added := true;
    } else {
      added := false;
    }
  }

  /** The insertion every item loop performs: globally when the item names no framework,
      otherwise once per framework, in whatever order the hash set yields them. */
  method AddDependency(spec: PackageSpec, entry: Entry, env: Collaborators)
    modifies spec
    ensures spec.Value() == old(spec.Value()).WithLists(AddToScopes(old(spec.Value()).Lists(), entry, env))
  {
    if entry.frameworks == {} {
      var _ := AddDependencyIfNotExist(spec, entry.dependency);
    } else {
      ghost var start := spec.Value();
      var remaining := entry.frameworks;
      ghost var visited: set<Framework> := {};
      InsertScopedFrame(start.dependencies, start.targetFrameworks, {}, entry.dependency);
      assert start.targetFrameworks == InsertScoped(start.dependencies, start.targetFrameworks, {}, entry.dependency);
      while remaining != {}
        invariant remaining + visited == entry.frameworks && remaining !! visited
        invariant spec.targetFrameworks == InsertScoped(start.dependencies, start.targetFrameworks,
                                                        Slots(env, start.targetFrameworks.Keys, visited), entry.dependency)
        invariant spec.Value() == start.(targetFrameworks := spec.targetFrameworks)
        decreases remaining
      {
        var framework :| framework in remaining;
        ghost var slots := Slots(env, start.targetFrameworks.Keys, visited);
        InsertScopedFrame(start.dependencies, start.targetFrameworks, slots, entry.dependency);
        ghost var slot := TargetFrameworkSlot(env, start.targetFrameworks.Keys, framework);
        InsertScopedStep(start.dependencies, start.targetFrameworks, slots, slot, entry.dependency);
        var _ := AddFrameworkDependencyIfNotExist(spec, framework, entry.dependency, env);
        assert Slots(env, start.targetFrameworks.Keys, visited + {framework})
            == slots + (if slot.Some? then {slot.value} else {});
        remaining := remaining - {framework};
        visited := visited + {framework};
      }
    }
  }

  // ----- reading dependencies from items -----

  /** `AddProjectReferences`: every `ProjectReference` item becomes a project dependency on its
      `ProjectReferenceUniqueName` for all versions and a `ProjectRestoreReference` in a hash
      set; the set's members are then appended to the metadata's references in whatever order
      the set yields them. An item whose frameworks do not parse ends the call with that error. */
  method AddProjectReferences(spec: PackageSpec, items: seq<Item>, env: Collaborators) returns (r: Outcome<Error>)
    modifies spec
    ensures var expected := AddProjectReferencesValue(old(spec.Value()), items, env);
            && (r.Pass? <==> expected.Ok?)
            && (r.Pass? ==> spec.Matches(expected.value))
            && (r.Fail? ==> expected == Err(r.error))
  {
    ghost var start := spec.Value();
    var typed := GetItemByType(items, "ProjectReference");
    var flatReferences: multiset<ProjectRestoreReference> := multiset{};
    var i := 0;
    while i < |typed|
      invariant 0 <= i <= |typed|
      invariant Entries(typed[..i], ProjectOrExternalProject, env).Ok?
      invariant spec.Value() == start.WithLists(IngestAll(start.Lists(), Entries(typed[..i], ProjectOrExternalProject, env).value, env))
      invariant flatReferences == multiset(ReferencesOf(typed[..i]))
    {
      var item := typed[i];
      var dependency := Dependency(GetProperty(item, "ProjectReferenceUniqueName"), AllVersions, ProjectOrExternalProject);
      var frameworks := GetFrameworks(item, env);
      if frameworks.Err? {
        EntriesStopAt(typed, i, ProjectOrExternalProject, env);
        return Fail(frameworks.error);
      }
      var entry := Entry(dependency, frameworks.value);
      EntriesStep(typed, i, ProjectOrExternalProject, env);
      IngestAllStep(start.Lists(), Entries(typed[..i], ProjectOrExternalProject, env).value, entry, env);
      AddDependency(spec, entry, env);
      flatReferences := flatReferences + multiset{ReferenceOf(item)};
      ReferencesOfStep(typed, i);
      i := i + 1;
    }
    assert typed[..i] == typed;
    AddReferencesToMetadata(spec, flatReferences);
    return Pass;
  }

  /** The last loop of `AddProjectReferences`: each member of the set joins the metadata's
      references, in whatever order the set yields them; nothing else changes. */
  method AddReferencesToMetadata(spec: PackageSpec, references: multiset<ProjectRestoreReference>)
    modifies spec
    ensures spec.Value() == old(spec.Value()).(metadata := spec.restoreMetadata)
    ensures spec.restoreMetadata.(projectReferences := []) == old(spec.restoreMetadata).(projectReferences := [])
    ensures multiset(spec.restoreMetadata.projectReferences) == multiset(old(spec.restoreMetadata.projectReferences)) + references
  {
    var remaining := references;
    while remaining != multiset{}
      invariant remaining <= references
      invariant spec.Value() == old(spec.Value()).(metadata := spec.restoreMetadata)
      invariant spec.restoreMetadata.(projectReferences := []) == old(spec.restoreMetadata).(projectReferences := [])
      invariant multiset(spec.restoreMetadata.projectReferences) + remaining
             == multiset(old(spec.restoreMetadata.projectReferences)) + references
      decreases |remaining|
    {
      var reference :| reference in remaining;
      spec.restoreMetadata := spec.restoreMetadata.(projectReferences := spec.restoreMetadata.projectReferences + [reference]);
      remaining := remaining - multiset{reference};
    }
  }

  /** The shared loop of `AddFrameworkAssemblies` and `AddPackageReferences`: for each item of
      the type, in order, read `Id`, the version range and the frameworks, and insert. The
      first item whose version range or frameworks do not parse ends the call with that error. */
  method AddItemsOfType(spec: PackageSpec, items: seq<Item>, itemType: string, target: DependencyTarget,
                        env: Collaborators) returns (r: Outcome<Error>)
    requires target != ProjectOrExternalProject
    modifies spec
    ensures var expected := AddDependencyItemsValue(old(spec.Value()), items, itemType, target, env);
            && (r.Pass? <==> expected.Ok?)
            && (r.Pass? ==> spec.Value() == expected.value)
            && (r.Fail? ==> expected == Err(r.error))
  {
    ghost var start := spec.Value();
    var typed := GetItemByType(items, itemType);
    var i := 0;
    while i < |typed|
      invariant 0 <= i <= |typed|
      invariant Entries(typed[..i], target, env).Ok?
      invariant spec.Value() == start.WithLists(IngestAll(start.Lists(), Entries(typed[..i], target, env).value, env))
    {
      var item := typed[i];
      var range := GetVersionRange(item, env);
      if range.Err? {
        DependencyItemsFailAt(start, items, itemType, target, env, i, range.error);
        return Fail(range.error);
      }
      var frameworks := GetFrameworks(item, env);
      if frameworks.Err? {
        DependencyItemsFailAt(start, items, itemType, target, env, i, frameworks.error);
        return Fail(frameworks.error);
      }
      var entry := Entry(Dependency(GetProperty(item, "Id"), range.value, target), frameworks.value);
      EntriesStep(typed, i, target, env);
      IngestAllStep(start.Lists(), Entries(typed[..i], target, env).value, entry, env);
      AddDependency(spec, entry, env);
      i := i + 1;
    }
    assert typed[..i] == typed;
    DependencyItemsPass(start, items, itemType, target, env);
    return Pass;
  }

  /** `AddFrameworkAssemblies`: every `FrameworkAssembly` item becomes a `Reference` dependency. */
  method AddFrameworkAssemblies(spec: PackageSpec, items: seq<Item>, env: Collaborators) returns (r: Outcome<Error>)
    modifies spec
    ensures var expected := AddDependencyItemsValue(old(spec.Value()), items, "FrameworkAssembly", Reference, env);
            && (r.Pass? <==> expected.Ok?)
            && (r.Pass? ==> spec.Value() == expected.value)
            && (r.Fail? ==> expected == Err(r.error))
  {
    r := AddItemsOfType(spec, items, "FrameworkAssembly", Reference, env);
  }

  /** `AddPackageReferences`: every `Dependency` item becomes a `Package` dependency. */
  method AddPackageReferences(spec: PackageSpec, items: seq<Item>, env: Collaborators) returns (r: Outcome<Error>)
    modifies spec
    ensures var expected := AddDependencyItemsValue(old(spec.Value()), items, "Dependency", Package, env);
            && (r.Pass? <==> expected.Ok?)
            && (r.Pass? ==> spec.Value() == expected.value)
            && (r.Fail? ==> expected == Err(r.error))
  {
    r := AddItemsOfType(spec, items, "Dependency", Package, env);
  }

  // ----- the whole graph -----

  /** `GetDependencySpec`: restore-spec items become restore roots, in input order; every other
      item with a non-empty `ProjectUniqueName` goes to that project's bucket; then each
      bucket's spec, or null, is added as a project, in whatever order the dictionary yields
      the buckets (`order`). The first bucket whose spec throws ends the call with its error. */
  method GetDependencySpec(items: seq<Item>, env: Collaborators)
    returns (r: Result<DependencyGraphSpec, Error>, ghost order: seq<string>)
    ensures var buckets := Buckets(items);
            && (r.Ok? <==> forall key :: key in buckets ==> PackageSpecValue(buckets[key], env).Ok?)
            && (r.Err? ==> exists key :: key in buckets && PackageSpecValue(buckets[key], env) == Err(r.error))
    ensures r.Ok? ==>
              && fresh(r.value)
              && r.value.restoreArguments == RestoreRoots(items)
              && |order| == |r.value.projectArguments| == |Buckets(items).Keys|
              && (forall k :: 0 <= k < |order| ==> order[k] in Buckets(items))
              && (forall j, k :: 0 <= j < k < |order| ==> order[j] != order[k])
              && (forall k :: 0 <= k < |order| ==>
                    PackageSpecValue(Buckets(items)[order[k]], env).Ok? &&
                    Agrees(r.value.projectArguments[k], PackageSpecValue(Buckets(items)[order[k]], env).value))
  {
    var graphSpec := new DependencyGraphSpec();
    var itemsById := ClassifyItems(graphSpec, items);
    ghost var expected := map key | key in itemsById :: PackageSpecValue(itemsById[key], env);
    var added;
    added, order := AddProjectSpecs(graphSpec, itemsById, env, expected);
    if added.Fail? {
      return Err(added.error), order;
    }
    return Ok(graphSpec), order;
  }

  /** The first loop of `GetDependencySpec`: each restore-spec item's `ProjectUniqueName`
      becomes a restore root; every other item with a non-empty `ProjectUniqueName` joins that
      project's bucket. */
  method ClassifyItems(graphSpec: DependencyGraphSpec, items: seq<Item>) returns (itemsById: map<string, seq<Item>>)
    modifies graphSpec
    ensures itemsById == Buckets(items)
    ensures graphSpec.restoreArguments == old(graphSpec.restoreArguments) + RestoreRoots(items)
    ensures graphSpec.projectArguments == old(graphSpec.projectArguments)
  {
    itemsById := map[];
    var i := 0;
    while i < |items|
      invariant 0 <= i <= |items|
      invariant itemsById == Buckets(items[..i])
      invariant graphSpec.restoreArguments == old(graphSpec.restoreArguments) + RestoreRoots(items[..i])
      invariant graphSpec.projectArguments == old(graphSpec.projectArguments)
    {
      var item := items[i];
      var typeProperty := GetProperty(item, "Type");
      var lowered := if typeProperty.Some? then Some(Lower(typeProperty.value)) else None;
      var projectUniqueName := GetProperty(item, "ProjectUniqueName");
      ClassifyStep(items, i);
      if lowered == Some("restorespec") {
        graphSpec.AddRestore(projectUniqueName);
      } else if !IsNullOrEmpty(projectUniqueName) {
        var idItems := if projectUniqueName.value in itemsById then itemsById[projectUniqueName.value] else [];
        itemsById := itemsById[projectUniqueName.value := idItems + [item]];
      }
      i := i + 1;
    }
    assert items[..i] == items;
  }

  /** The second loop of `GetDependencySpec`: each bucket's spec, or null, is added as a project,
      in whatever order the dictionary yields the keys (`order`, which lists every key once);
      the first bucket whose spec throws ends the loop with its error. `expected` holds what
      `GetPackageSpec` yields for each bucket. */
  method AddProjectSpecs(graphSpec: DependencyGraphSpec, itemsById: map<string, seq<Item>>, env: Collaborators,
                         ghost expected: map<string, Result<Option<SpecValue>, Error>>)
    returns (r: Outcome<Error>, ghost order: seq<string>)
    requires graphSpec.projectArguments == []
    requires expected.Keys == itemsById.Keys
    requires forall key {:trigger PackageSpecValue(itemsById[key], env)} :: key in itemsById ==>
               PackageSpecValue(itemsById[key], env) == expected[key]
    modifies graphSpec
    ensures graphSpec.restoreArguments == old(graphSpec.restoreArguments)
    ensures r.Pass? <==> forall key :: key in expected ==> expected[key].Ok?
    ensures r.Fail? ==> exists key :: key in expected && expected[key] == Err(r.error)
    ensures r.Pass? ==>
              && |order| == |graphSpec.projectArguments| == |expected.Keys|
              && (forall k :: 0 <= k < |order| ==> order[k] in expected)
              && (forall j, k :: 0 <= j < k < |order| ==> order[j] != order[k])
              && (forall k :: 0 <= k < |order| ==>
                    expected[order[k]].Ok? && Agrees(graphSpec.projectArguments[k], expected[order[k]].value))
  {
    order := [];
    var remaining := itemsById.Keys;
    while remaining != {}
      invariant Enumerates(order, remaining, itemsById.Keys)
      invariant |order| == |graphSpec.projectArguments|
      invariant graphSpec.restoreArguments == old(graphSpec.restoreArguments)
      invariant forall k :: 0 <= k < |order| ==>
                  expected[order[k]].Ok? && Agrees(graphSpec.projectArguments[k], expected[order[k]].value)
      decreases remaining
    {
      var key :| key in remaining;
      var added := AddBucketSpec(graphSpec, itemsById, key, env, expected);
      if added.Fail? {
        return Fail(added.error), order;
      }
      EnumerateStep(order, remaining, itemsById.Keys, key);
      order := order + [key];
      remaining := remaining - {key};
    }
    EnumerateDone(order, itemsById);
    return Pass, order;
  }

  /** One step of that loop: the bucket's spec, or null, is added as a project unless reading
      it throws. */
  method AddBucketSpec(graphSpec: DependencyGraphSpec, itemsById: map<string, seq<Item>>, key: string,
                       env: Collaborators, ghost expected: map<string, Result<Option<SpecValue>, Error>>)
    returns (r: Outcome<Error>)
    requires key in itemsById && expected.Keys == itemsById.Keys
    requires forall key {:trigger PackageSpecValue(itemsById[key], env)} :: key in itemsById ==>
               PackageSpecValue(itemsById[key], env) == expected[key]
    modifies graphSpec
    ensures graphSpec.restoreArguments == old(graphSpec.restoreArguments)
    ensures r.Pass? <==> expected[key].Ok?
    ensures r.Fail? ==> expected[key] == Err(r.error)
    ensures r.Pass? ==> exists p :: graphSpec.projectArguments == old(graphSpec.projectArguments) + [p]
                                    && Agrees(p, expected[key].value)
  {
    var spec := GetPackageSpec(itemsById[key], env);
    if spec.Err? {
      return Fail(spec.error);
    }
    graphSpec.AddProject(spec.value);
    return Pass;
  }

  /** `order` lists, once each, the keys no longer `remaining`. */
  predicate Enumerates(order: seq<string>, remaining: set<string>, keys: set<string>) {
    && remaining <= keys
    && (forall k :: 0 <= k < |order| ==> order[k] in keys && order[k] !in remaining)
    && (forall key :: key in keys && key !in remaining ==> key in order)
    && (forall j, k :: 0 <= j < k < |order| ==> order[j] != order[k])
  }

  lemma EnumerateStep(order: seq<string>, remaining: set<string>, keys: set<string>, key: string)
    requires Enumerates(order, remaining, keys) && key in remaining
    ensures Enumerates(order + [key], remaining - {key}, keys)
  {
  }

  lemma EnumerateDone<V>(order: seq<string>, m: map<string, V>)
    requires Enumerates(order, {}, m.Keys)
    ensures |order| == |m.Keys|
    ensures forall k :: 0 <= k < |order| ==> order[k] in m
    ensures forall j, k :: 0 <= j < k < |order| ==> order[j] != order[k]
  {
    DistinctCoversKeys(order, m);
  }

  /** A duplicate-free sequence that lists every key of a map has one element per key. */
  lemma DistinctCoversKeys<V>(order: seq<string>, m: map<string, V>)
    requires forall k :: 0 <= k < |order| ==> order[k] in m
    requires forall key :: key in m ==> key in order
    requires forall j, k :: 0 <= j < k < |order| ==> order[j] != order[k]
    ensures |order| == |m.Keys|
  {
    assert m.Keys == set k | 0 <= k < |order| :: order[k];
    DistinctCardinality(order);
  }

  lemma {:induction false} DistinctCardinality(order: seq<string>)
    requires forall j, k :: 0 <= j < k < |order| ==> order[j] != order[k]
    ensures |set k | 0 <= k < |order| :: order[k]| == |order|
  {
    if order != [] {
      var init := order[..|order| - 1];
      DistinctCardinality(init);
      assert (set k | 0 <= k < |order| :: order[k]) == (set k | 0 <= k < |init| :: init[k]) + {order[|order| - 1]};
    }
  }

  // ----- building one project's spec -----

  /** `GetBaseSpec`: a new spec with one empty entry per parsed framework, `FilePath` from
      `ProjectPath`, the base name and fresh metadata. */
  method GetBaseSpec(specItem: Item, env: Collaborators) returns (r: Result<PackageSpec, Error>)
    ensures var expected := BaseSpecValue(specItem, env);
            && (r.Ok? <==> expected.Ok?)
            && (r.Ok? ==> fresh(r.value) && r.value.Value() == expected.value)
            && (r.Err? ==> expected == Err(r.error))
  {
    var frameworks :- GetFrameworks(specItem, env);
    var spec := new PackageSpec(map f | f in frameworks :: []);
    spec.restoreMetadata := EmptyMetadata;
    spec.filePath := GetProperty(specItem, "ProjectPath");
    spec.name := GetProperty(specItem, "ProjectName");
    if IsNullOrEmpty(spec.name) && !IsNullOrEmpty(spec.filePath) {
      spec.name := FileNameWithoutExtension(env, spec.filePath);
    }
    return Ok(spec);
  }

  /** `GetUAPSpec`: the spec read from project.json under the file-name stem of `ProjectPath`,
      given fresh metadata that records `ProjectJsonPath` and that name. */
  method GetUAPSpec(specItem: Item, env: Collaborators) returns (r: Result<PackageSpec, Error>)
    ensures var expected := UAPSpecValue(specItem, env);
            && (r.Ok? <==> expected.Ok?)
            && (r.Ok? ==> fresh(r.value) && r.value.Value() == expected.value)
            && (r.Err? ==> expected == Err(r.error))
  {
    var projectPath := GetProperty(specItem, "ProjectPath");
    var projectName := FileNameWithoutExtension(env, projectPath);
    var projectJsonPath := GetProperty(specItem, "ProjectJsonPath");
    var json := env.readProjectJson(projectName, projectJsonPath);
    if json.None? {
      return Err(ProjectJsonError(projectJsonPath));
    }
    var spec := new PackageSpec(json.value.targetFrameworks);
    spec.filePath := json.value.filePath;
    spec.name := json.value.name;
    spec.dependencies := json.value.dependencies;
    spec.restoreMetadata := EmptyMetadata.(projectJsonPath := projectJsonPath, projectName := projectName);
    return Ok(spec);
  }

  /** `GetPackageSpec`: null when no item is a `ProjectSpec`, an error when two are; otherwise
      a new spec from the strategy the output type picks, with the output type, `ProjectPath`
      and `ProjectUniqueName` recorded, project references added, and for `NETCore` framework
      assemblies and packages added. The result holds the value `PackageSpecValue` describes,
      up to the order of its project references. */
  method GetPackageSpec(items: seq<Item>, env: Collaborators) returns (r: Result<PackageSpec?, Error>)
    ensures var expected := PackageSpecValue(items, env);
            && (r.Ok? <==> expected.Ok?)
            && (r.Ok? ==> Agrees(r.value, expected.value) && (r.value != null ==> fresh(r.value)))
            && (r.Err? ==> expected == Err(r.error))
  {
    var specItems := GetItemByType(items, "ProjectSpec");
    if |specItems| > 1 {
      return Err(MoreThanOneProjectSpec);
    }
    if specItems == [] {
      return Ok(null);
    }
    var spec :- BuildSpec(specItems[0], items, env);
    return Ok(spec);
  }

  /** The body of `GetPackageSpec` once its `ProjectSpec` item is found. */
  method BuildSpec(specItem: Item, items: seq<Item>, env: Collaborators) returns (r: Result<PackageSpec, Error>)
    ensures var expected := SpecFromItem(specItem, items, env);
            && (r.Ok? <==> expected.Ok?)
            && (r.Ok? ==> fresh(r.value) && r.value.Matches(expected.value))
            && (r.Err? ==> expected == Err(r.error))
  {
    var restoreType := ParseOutputType(GetProperty(specItem, "OutputType"));
    var result: PackageSpec;
    if restoreType == UAP {
      result :- GetUAPSpec(specItem, env);
    } else {
      result :- GetBaseSpec(specItem, env);
    }
    result.restoreMetadata := result.restoreMetadata.(
      outputType := restoreType,
      projectPath := GetProperty(specItem, "ProjectPath"),
      projectUniqueName := GetProperty(specItem, "ProjectUniqueName"));
    ghost var withMetadata := result.Value();
    var references := AddProjectReferences(result, items, env);
    if references.Fail? {
      return Err(references.error);
    }
    ghost var withReferences := AddProjectReferencesValue(withMetadata, items, env).value;
    if restoreType == NETCore {
      ghost var before := result.Value();
      var assemblies := AddFrameworkAssemblies(result, items, env);
      if assemblies.Fail? {
        ItemsIgnoreMetadata(before, withReferences, items, "FrameworkAssembly", Reference, env);
        return Err(assemblies.error);
      }
      ItemsIgnoreMetadata(before, withReferences, items, "FrameworkAssembly", Reference, env);
      ghost var withAssemblies := AddDependencyItemsValue(withReferences, items, "FrameworkAssembly", Reference, env).value;
      before := result.Value();
      var packages := AddPackageReferences(result, items, env);
      ItemsIgnoreMetadata(before, withAssemblies, items, "Dependency", Package, env);
      if packages.Fail? {
        return Err(packages.error);
      }
    }
    return Ok(result);
  }
}
