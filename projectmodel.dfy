/** The restore specification types: library dependencies, restore metadata, the per-project
    `PackageSpec` (a class whose fields the utility updates in place), the aggregate
    `DependencyGraphSpec`, and the external library calls the utility makes. */
module ProjectModel {
  import opened Wrappers
  import opened Text

  /** A parsed target framework (`NuGetFramework`): an opaque value compared by equality. */
  datatype Framework = Framework(name: string)

  /** A parsed version range; `AllVersions` is `VersionRange.All`. */
  datatype VersionRange = AllVersions | Range(text: string)

  /** `RestoreOutputType`. Unknown is the enum's default value. */
  datatype OutputType = Unknown | NETCore | UAP

  /** `LibraryDependencyTarget` values used here; `ProjectOrExternalProject` is the flag
      combination `Project | ExternalProject`. */
  datatype DependencyTarget = Package | ProjectOrExternalProject | Reference

  /** A `LibraryDependency`: its name (possibly null), version range and target-kind
      constraint. Dependencies compare by name, ignoring case. */
  datatype Dependency = Dependency(name: Option<string>, versionRange: VersionRange, target: DependencyTarget)

  /** `ProjectRestoreReference`. The C# class has no value equality, so a set of them never
      merges two references; the model keeps one entry per source item. */
  datatype ProjectRestoreReference = ProjectRestoreReference(projectUniqueName: Option<string>, projectPath: Option<string>)

  /** `ProjectRestoreMetadata`. */
  datatype RestoreMetadata = RestoreMetadata(
    outputType: OutputType,
    projectPath: Option<string>,
    projectUniqueName: Option<string>,
    projectJsonPath: Option<string>,
    projectName: Option<string>,
    projectReferences: seq<ProjectRestoreReference>)

  /** `new ProjectRestoreMetadata()`. */
  const EmptyMetadata := RestoreMetadata(Unknown, None, None, None, None, [])

  /** The dependency lists of a spec: the global list and one list per target framework. */
  datatype DependencyLists = DependencyLists(global: seq<Dependency>, frameworks: map<Framework, seq<Dependency>>)

  /** The value of a `PackageSpec`. */
  datatype SpecValue = SpecValue(
    filePath: Option<string>,
    name: Option<string>,
    dependencies: seq<Dependency>,
    targetFrameworks: map<Framework, seq<Dependency>>,
    metadata: RestoreMetadata)
  {
    function Lists(): DependencyLists {
      DependencyLists(dependencies, targetFrameworks)
    }

    function WithLists(l: DependencyLists): SpecValue {
      this.(dependencies := l.global, targetFrameworks := l.frameworks)
    }
  }

  /** What `JsonPackageSpecReader.GetPackageSpec` returns: a spec read from a project.json file. */
  datatype ProjectJson = ProjectJson(
    filePath: Option<string>,
    name: Option<string>,
    dependencies: seq<Dependency>,
    targetFrameworks: map<Framework, seq<Dependency>>)

  /** What a call into this component can throw. */
  datatype Error =
    | MoreThanOneProjectSpec               // SingleOrDefault found two matches
    | FrameworkParseError(token: string)   // NuGetFramework.Parse rejected a token
    | VersionRangeParseError(text: string) // VersionRange.Parse rejected a string
    | ProjectJsonError(path: Option<string>) // the project.json reader failed

  /** The library calls `MSBuildRestoreUtility` makes, passed in rather than re-specified.
      - parseFramework: `NuGetFramework.Parse`; None when it throws.
      - parseVersionRange: `VersionRange.Parse`; None when it throws.
      - fileNameWithoutExtension: `Path.GetFileNameWithoutExtension` on a non-null path;
        assumed not to throw.
      - readProjectJson: `JsonPackageSpecReader.GetPackageSpec(name, path)`; None when it throws.
      - targetFrameworkEntry: `PackageSpec.GetTargetFramework`: given the frameworks the spec
        declares and a requested framework, the declared framework whose entry is returned, or
        None for an entry that is not attached to the spec (not an exception: the
        lookup is assumed not to throw). */
  datatype Collaborators = Collaborators(
    parseFramework: string -> Option<Framework>,
    parseVersionRange: string -> Option<VersionRange>,
    fileNameWithoutExtension: string -> string,
    readProjectJson: (Option<string>, Option<string>) -> Option<ProjectJson>,
    targetFrameworkEntry: (set<Framework>, Framework) -> Option<Framework>)

  /** The entry `GetTargetFramework` hands back, as a key of the spec's frameworks; None is a
      detached entry, whose dependency list starts empty and is dropped afterwards. */
  function TargetFrameworkSlot(env: Collaborators, declared: set<Framework>, framework: Framework): (r: Option<Framework>)
    ensures r.Some? ==> r.value in declared
  {
    var entry := env.targetFrameworkEntry(declared, framework);
    if entry.Some? && entry.value in declared then entry else None
  }

  /** `Path.GetFileNameWithoutExtension`, which maps null to null. */
  function FileNameWithoutExtension(env: Collaborators, path: Option<string>): (r: Option<string>)
    ensures r.Some? <==> path.Some?
  {
    if path.Some? then Some(env.fileNameWithoutExtension(path.value)) else None
  }

  /** `deps.Select(d => d.Name).Contains(name, StringComparer.OrdinalIgnoreCase)`. */
  function HasName(deps: seq<Dependency>, name: Option<string>): (r: bool)
    ensures r <==> exists i :: 0 <= i < |deps| && NameEquals(deps[i].name, name)
  {
    if deps == [] then false
    else if NameEquals(deps[0].name, name) then true
    else
      assert forall i :: 1 <= i < |deps| ==> deps[i] == deps[1..][i - 1];
      HasName(deps[1..], name)
  }

  /** No two dependencies of the list share a name, ignoring case. */
  predicate NoDuplicateNames(deps: seq<Dependency>) {
    forall i, j :: 0 <= i < j < |deps| ==> !NameEquals(deps[i].name, deps[j].name)
  }

  /** Both the global list and every framework's list are free of duplicate names. */
  predicate ListsUnique(l: DependencyLists) {
    NoDuplicateNames(l.global) && forall g :: g in l.frameworks ==> NoDuplicateNames(l.frameworks[g])
  }

  /** Two metadata values that differ at most in the order of their project references. */
  predicate SameMetadataUpToOrder(a: RestoreMetadata, b: RestoreMetadata) {
    a.(projectReferences := []) == b.(projectReferences := [])
    && multiset(a.projectReferences) == multiset(b.projectReferences)
  }

  /** A `PackageSpec` object. */
  class PackageSpec {
    var filePath: Option<string>
    var name: Option<string>
    var dependencies: seq<Dependency>
    var targetFrameworks: map<Framework, seq<Dependency>>
    var restoreMetadata: RestoreMetadata

    /** `new PackageSpec(frameworks)`: the given framework entries, nothing else set. */
    constructor (frameworks: map<Framework, seq<Dependency>>)
      ensures Value() == SpecValue(None, None, [], frameworks, EmptyMetadata)
    {
      filePath := None;
      name := None;
      dependencies := [];
      targetFrameworks := frameworks;
      restoreMetadata := EmptyMetadata;
    }

    /** The object's current value. */
    function Value(): SpecValue
      reads this
    {
      SpecValue(filePath, name, dependencies, targetFrameworks, restoreMetadata)
    }

    /** The object holds `x`, up to the order of its project references (which come out
        of a hash set in no promised order). */
    predicate Matches(x: SpecValue)
      reads this
    {
      && filePath == x.filePath
      && name == x.name
      && dependencies == x.dependencies
      && targetFrameworks == x.targetFrameworks
      && SameMetadataUpToOrder(restoreMetadata, x.metadata)
    }
  }

  /** A `PackageSpec` reference that may be null agrees with an optional spec value. */
  predicate Agrees(p: PackageSpec?, x: Option<SpecValue>)
    reads p
  {
    (p == null <==> x.None?) && (p != null ==> p.Matches(x.value))
  }

  /** The `DependencyGraphSpec` being filled. What `AddRestore` and `AddProject` do with their
      arguments is not part of this model; the object records the arguments, in call order. */
  class DependencyGraphSpec {
    var restoreArguments: seq<Option<string>>
    var projectArguments: seq<PackageSpec?>

    constructor ()
      ensures restoreArguments == [] && projectArguments == []
    {
      restoreArguments := [];
      projectArguments := [];
    }

    method AddRestore(projectUniqueName: Option<string>)
      modifies this
      ensures restoreArguments == old(restoreArguments) + [projectUniqueName]
      ensures projectArguments == old(projectArguments)
    {
      restoreArguments := restoreArguments + [projectUniqueName];
    }

    method AddProject(spec: PackageSpec?)
      modifies this
      ensures projectArguments == old(projectArguments) + [spec]
      ensures restoreArguments == old(restoreArguments)
    {
      projectArguments := projectArguments + [spec];
    }
  }
}
