/**
 * The migrate command: set up Directory.Packages.props, read every
 * project that is not excluded, collect the latest version of each
 * package, write those versions into the manifest and strip the versions
 * out of the projects.
 */
module MigratorCommand {
  import opened Wrappers
  import opened Xml
  import opened Packages
  import opened ProjectFileParser
  import opened Exclusion
  import opened ManifestWriter
  import opened ProjectRewriter

  /*
   * Reading the projects
   */

  /**
   * The projects read left to right: the first project that fails to
   * parse ends the scan with its error; otherwise the projects with at
   * least one package, in order, with their packages.
   */
  function ScanProjects(projects: seq<ProjectFile>, build: DesignTimeBuild): Result<seq<ParsedProject>, MigrationError>
    decreases |projects|
  {
    if projects == [] then Success([])
    else
      var p := projects[|projects| - 1];
      match ScanProjects(projects[..|projects| - 1], build)
      case Failure(e) => Failure(e)
      case Success(found) =>
        match ParseProject(p.path, p.doc, build)
        case Failure(e) => Failure(e)
        case Success(packages) => Success(if packages == map[] then found else found + [ParsedProject(p, packages)])
  }

  /** The package maps of the projects, in order. */
  function PackagesOf(found: seq<ParsedProject>): (maps: seq<PackageMap>)
    ensures |maps| == |found| && forall i :: 0 <= i < |found| ==> maps[i] == found[i].packages
  {
    seq(|found|, i requires 0 <= i < |found| => found[i].packages)
  }

  /** The project at index j is the first whose parse fails. */
  predicate FirstFailureAt(projects: seq<ProjectFile>, build: DesignTimeBuild, j: int)
  {
    && 0 <= j < |projects|
    && ParseProject(projects[j].path, projects[j].doc, build).Failure?
    && forall i :: 0 <= i < j ==> ParseProject(projects[i].path, projects[i].doc, build).Success?
  }

  /** The scan fails exactly when some project fails to parse, and then with the error of the first such project. */
  lemma {:induction false} ScanFailure(projects: seq<ProjectFile>, build: DesignTimeBuild)
    ensures ScanProjects(projects, build).Success? <==>
      forall p :: p in projects ==> ParseProject(p.path, p.doc, build).Success?
    ensures ScanProjects(projects, build).Failure? ==>
      exists j :: FirstFailureAt(projects, build, j) &&
        ScanProjects(projects, build).error == ParseProject(projects[j].path, projects[j].doc, build).error
    decreases |projects|
  {
    if projects != [] {
      var n := |projects| - 1;
      var prefix := projects[..n];
      var p := projects[n];
      ScanFailure(prefix, build);
      assert forall q :: q in projects <==> q in prefix || q == p;
      assert forall i :: 0 <= i < n ==> prefix[i] == projects[i];
      if ScanProjects(prefix, build).Failure? {
        var j :| FirstFailureAt(prefix, build, j) &&
          ScanProjects(prefix, build).error == ParseProject(prefix[j].path, prefix[j].doc, build).error;
        assert FirstFailureAt(projects, build, j);
      } else if ParseProject(p.path, p.doc, build).Failure? {
        assert prefix[..n] == prefix;
        forall i | 0 <= i < n ensures ParseProject(projects[i].path, projects[i].doc, build).Success? {
          assert projects[i] in prefix;
        }
        assert FirstFailureAt(projects, build, n);
      }
    }
  }

  /**
   * A successful scan holds exactly the projects with packages, each with
   * the packages it parsed to, in the order of the input.
   */
  lemma {:induction false} ScanFound(projects: seq<ProjectFile>, build: DesignTimeBuild)
    requires ScanProjects(projects, build).Success?
    ensures var found := ScanProjects(projects, build).value;
      && (forall i :: 0 <= i < |found| ==>
            && found[i].file in projects
            && found[i].packages != map[]
            && ParseProject(found[i].file.path, found[i].file.doc, build) == Success(found[i].packages))
      && (forall p ::
            (p in projects && ParseProject(p.path, p.doc, build).Success? && ParseProject(p.path, p.doc, build).value != map[]) ==>
            ParsedProject(p, ParseProject(p.path, p.doc, build).value) in found)
    decreases |projects|
  {
    if projects != [] {
      var n := |projects| - 1;
      var prefix := projects[..n];
      ScanFound(prefix, build);
      assert forall q :: q in projects <==> q in prefix || q == projects[n];
    }
  }

  /** A scan fails only with a build failure or a duplicate Include of one of its projects. */
  lemma ScanErrors(projects: seq<ProjectFile>, build: DesignTimeBuild)
    ensures var r := ScanProjects(projects, build);
      r.Failure? ==>
        exists p :: p in projects && (r.error == BuildFailed(p.path) || (r.error.DuplicateInclude? && r.error.project == p.path))
  {
    ScanFailure(projects, build);
    if ScanProjects(projects, build).Failure? {
      var j :| FirstFailureAt(projects, build, j) &&
        ScanProjects(projects, build).error == ParseProject(projects[j].path, projects[j].doc, build).error;
      var p := projects[j];
      ParseReferencesErrors(PackageReferences(p.doc.elements), p.path, build(p.path), map[]);
    }
  }

  /** One more project: the scan of the longer prefix from the scan of the shorter. */
  lemma ScanStep(projects: seq<ProjectFile>, n: nat, build: DesignTimeBuild)
    requires n < |projects|
    ensures var p := projects[n];
      ScanProjects(projects[..n + 1], build) ==
        match ScanProjects(projects[..n], build)
        case Failure(e) => Failure(e)
        case Success(found) =>
          match ParseProject(p.path, p.doc, build)
          case Failure(e) => Failure(e)
          case Success(packages) => Success(if packages == map[] then found else found + [ParsedProject(p, packages)])
  {
    assert projects[..n + 1][..n] == projects[..n];
  }

  /** Keeping one more project folds its packages into the table; a project without packages changes nothing. */
  lemma FoldAllSnoc(found: seq<ParsedProject>, p: ParsedProject, compareTo: Comparer)
    ensures FoldAll(PackagesOf(found + [p]), compareTo) == FoldProject(FoldAll(PackagesOf(found), compareTo), p.packages, compareTo)
    ensures p.packages == map[] ==> FoldProject(FoldAll(PackagesOf(found), compareTo), p.packages, compareTo) == FoldAll(PackagesOf(found), compareTo)
  {
    assert PackagesOf(found + [p])[..|found|] == PackagesOf(found);
  }

  /** Once a prefix fails, the whole scan fails with the same error. */
  lemma {:induction false} ScanFailsFrom(projects: seq<ProjectFile>, n: nat, build: DesignTimeBuild)
    requires n <= |projects| && ScanProjects(projects[..n], build).Failure?
    ensures ScanProjects(projects, build) == ScanProjects(projects[..n], build)
    decreases |projects| - n
  {
    if n < |projects| {
      ScanStep(projects, n, build);
      ScanFailsFrom(projects, n + 1, build);
    } else {
      assert projects[..n] == projects;
    }
  }

  /** The table folded from the scan names every package of every project with packages. */
  lemma TableCoversProjects(found: seq<ParsedProject>, compareTo: Comparer)
    ensures forall i :: 0 <= i < |found| ==> found[i].packages.Keys <= FoldAll(PackagesOf(found), compareTo).Keys
  {
    var maps := PackagesOf(found);
    FoldAllKeys(maps, compareTo);
    forall i, k | 0 <= i < |found| && k in found[i].packages
      ensures k in FoldAll(maps, compareTo)
    {
      assert k in maps[i];
    }
  }

  /** The table is empty exactly when no project has a package. */
  lemma TableEmpty(projects: seq<ProjectFile>, build: DesignTimeBuild, compareTo: Comparer)
    requires ScanProjects(projects, build).Success?
    ensures var found := ScanProjects(projects, build).value;
      FoldAll(PackagesOf(found), compareTo) == map[] <==> found == []
  {
    var found := ScanProjects(projects, build).value;
    var maps := PackagesOf(found);
    FoldAllKeys(maps, compareTo);
    ScanFound(projects, build);
    if found != [] {
      var k :| k in found[0].packages;
      assert k in maps[0];
    }
  }

  /** When every project parses to no packages, the scan finds nothing (as on a second run). */
  lemma {:induction false} ScanFindsNothing(projects: seq<ProjectFile>, build: DesignTimeBuild)
    requires forall p :: p in projects ==> ParseProject(p.path, p.doc, build) == Success(map[])
    ensures ScanProjects(projects, build) == Success([])
    decreases |projects|
  {
    if projects != [] {
      var n := |projects| - 1;
      assert forall q :: q in projects[..n] ==> q in projects;
      ScanFindsNothing(projects[..n], build);
      assert projects[n] in projects;
    }
  }

  /**
   * The design-time build of project p ran count times: at most once, and
   * once exactly when one of its kept references has a placeholder.
   */
  predicate BuiltAsNeeded(p: ProjectFile, count: nat)
  {
    count <= 1 && (count == 1 <==> AnyNeedsBuild(PackageReferences(p.doc.elements)))
  }

  /** The design-time build of project p ran at most once, and only if one of its kept references has a placeholder. */
  predicate BuiltAtMostAsNeeded(p: ProjectFile, count: nat)
  {
    count <= 1 && (count == 1 ==> AnyNeedsBuild(PackageReferences(p.doc.elements)))
  }

  /** The build counts of the first projects, with one more project's count appended. */
  lemma BuildCountsSnoc(projects: seq<ProjectFile>, counts: seq<nat>, b: nat, exact: bool)
    requires |counts| < |projects|
    requires forall i :: 0 <= i < |counts| ==> BuiltAsNeeded(projects[i], counts[i])
    requires BuiltAtMostAsNeeded(projects[|counts|], b)
    requires exact ==> BuiltAsNeeded(projects[|counts|], b)
    ensures forall i :: 0 <= i < |counts| + 1 ==> BuiltAtMostAsNeeded(projects[i], (counts + [b])[i])
    ensures exact ==> forall i :: 0 <= i < |counts| + 1 ==> BuiltAsNeeded(projects[i], (counts + [b])[i])
  {
    assert forall i :: 0 <= i < |counts| ==> (counts + [b])[i] == counts[i];
  }

  /**
   * ParseProjectFiles: each project in turn is processed against the shared
   * table; those with packages are kept for the rewrite. buildsPerProject
   * counts the design-time builds of each project processed.
   */
  method ParseProjectFiles(allProjectFiles: seq<ProjectFile>, build: DesignTimeBuild, compareTo: Comparer)
    returns (r: Result<(PackageMap, seq<ParsedProject>), MigrationError>, ghost buildsPerProject: seq<nat>)
    ensures |buildsPerProject| <= |allProjectFiles|
    ensures forall i :: 0 <= i < |buildsPerProject| ==> BuiltAtMostAsNeeded(allProjectFiles[i], buildsPerProject[i])
    ensures r.Success? ==> |buildsPerProject| == |allProjectFiles|
    ensures r.Success? ==> forall i :: 0 <= i < |buildsPerProject| ==> BuiltAsNeeded(allProjectFiles[i], buildsPerProject[i])
    ensures r.Failure? <==> ScanProjects(allProjectFiles, build).Failure?
    ensures r.Failure? ==> r.error == ScanProjects(allProjectFiles, build).error
    ensures r.Success? ==>
      var found := ScanProjects(allProjectFiles, build).value;
      r.value == (FoldAll(PackagesOf(found), compareTo), found)
  {
    var projectPackageLookup: seq<ParsedProject> := [];
    var latestPackage: PackageMap := map[];
    buildsPerProject := [];
    for n := 0 to |allProjectFiles|
      invariant |buildsPerProject| == n
      invariant forall i :: 0 <= i < n ==> BuiltAsNeeded(allProjectFiles[i], buildsPerProject[i])
      invariant ScanProjects(allProjectFiles[..n], build) == Success(projectPackageLookup)
      invariant latestPackage == FoldAll(PackagesOf(projectPackageLookup), compareTo)
    {
      var projectFile := allProjectFiles[n];
      ScanStep(allProjectFiles, n, build);
      var packages, latest, b := ProcessProjectFile(projectFile.path, projectFile.doc, build, latestPackage, compareTo);
      BuildCountsSnoc(allProjectFiles, buildsPerProject, b, packages.Success?);
      buildsPerProject := buildsPerProject + [b];
      if packages.Failure? {
        ScanFailsFrom(allProjectFiles, n + 1, build);
        return Failure(packages.error), buildsPerProject;
      }
      var parsed := ParsedProject(projectFile, if packages.value.Some? then packages.value.value else map[]);
      FoldAllSnoc(projectPackageLookup, parsed, compareTo);
      if packages.value.Some? {
        projectPackageLookup := projectPackageLookup + [parsed];
      }
      latestPackage := latest;
    }
    assert allProjectFiles[..|allProjectFiles|] == allProjectFiles;
    return Success((latestPackage, projectPackageLookup)), buildsPerProject;
  }

  /*
   * Writing the manifest and the projects
   */

  /**
   * Enumerating a dictionary's values: each value once, in an order the
   * dictionary does not promise (any order is allowed here).
   */
  method Values(table: PackageMap) returns (values: seq<PackageInfo>)
    ensures DistinctIds(values)
    ensures forall i :: 0 <= i < |values| ==> values[i].id in table && table[values[i].id] == values[i]
    ensures forall id :: id in table <==> HasId(values, id)
  {
    values := [];
    var rest := table.Keys;
    while rest != {}
      invariant rest <= table.Keys
      invariant DistinctIds(values)
      invariant forall i :: 0 <= i < |values| ==>
        values[i].id in table && values[i].id !in rest && table[values[i].id] == values[i]
      invariant forall id :: id in table <==> id in rest || HasId(values, id)
      decreases rest
    {
      var id :| id in rest;
      HasIdSnoc(values, table[id]);
      values := values + [table[id]];
      rest := rest - {id};
    }
  }

  /** The ids of a sequence with one more package. */
  lemma HasIdSnoc(values: seq<PackageInfo>, p: PackageInfo)
    ensures forall id :: HasId(values + [p], id) <==> HasId(values, id) || id == p.id
  {
    forall id | HasId(values, id) ensures HasId(values + [p], id) {
      var i :| 0 <= i < |values| && values[i].id == id;
      assert (values + [p])[i] == values[i];
    }
    assert (values + [p])[|values|] == p;
  }

  /** Some package of the table has an entry that needs an edit. */
  predicate TableNeedsEdit(elems: seq<Element>, table: PackageMap)
  {
    exists id :: id in table && NeedsEdit(FirstMatchElement(elems, PackageVersionTag, id), table[id])
  }

  /**
   * UpdateDirectoryPackagesProps over an enumeration of the table: every
   * package's entry becomes its written form, every other entry stays, and
   * the file is saved exactly when some entry needed an edit.
   */
  lemma UpdatedManifest(doc: Manifest, table: PackageMap, values: seq<PackageInfo>)
    requires doc.itemGroupEnd.Some? && DistinctIds(values)
    requires forall i :: 0 <= i < |values| ==> values[i].id in table && table[values[i].id] == values[i]
    requires forall id :: id in table <==> HasId(values, id)
    ensures var (after, edited) := UpsertAll(doc, values);
      && (edited <==> TableNeedsEdit(doc.elements, table))
      && (forall id :: id in table ==>
            FirstMatchElement(after.elements, PackageVersionTag, id) ==
            Some(Upserted(FirstMatchElement(doc.elements, PackageVersionTag, id), table[id])))
      && (forall id :: id !in table ==>
            FirstMatchElement(after.elements, PackageVersionTag, id) == FirstMatchElement(doc.elements, PackageVersionTag, id))
  {
    UpsertAllEdited(doc, values);
    UpsertAllEntries(doc, values);
    if TableNeedsEdit(doc.elements, table) {
      var id :| id in table && NeedsEdit(FirstMatchElement(doc.elements, PackageVersionTag, id), table[id]);
      assert HasId(values, id);
    }
    forall id | id !in table
      ensures FirstMatchElement(UpsertAll(doc, values).0.elements, PackageVersionTag, id) ==
        FirstMatchElement(doc.elements, PackageVersionTag, id)
    {
      UpsertAllOthers(doc, values, id);
    }
  }

  /** The files as the command finds them. */
  datatype Workspace = Workspace(
    directoryPackagesProps: Option<Manifest>,  // Directory.Packages.props at the repository root, if present
    packagesPropsExists: bool,                 // Packages.props at the repository root
    projects: seq<ProjectFile>)                // the *.*proj files under the search path

  /** Directory.Packages.props once the first step has run: the existing file, or a copy of the template asset. */
  function InitialManifest(workspace: Workspace, template: Manifest): Manifest
  {
    if workspace.directoryPackagesProps.Some? then workspace.directoryPackagesProps.value else template
  }

  /** The projects left after the exclusion filter. */
  function Candidates(workspace: Workspace, excludeDirectory: Option<string>): seq<ProjectFile>
  {
    FilterProjects(workspace.projects, ExcludeDirectories(excludeDirectory))
  }

  /** The files written for the projects with packages: each one rewritten against the table. */
  predicate SavedAll(saved: seq<SavedFile>, found: seq<ParsedProject>, table: PackageMap)
  {
    && |saved| == |found|
    && forall i :: 0 <= i < |found| ==>
         found[i].packages.Keys <= table.Keys &&
         saved[i] == SavedFile(found[i].file.path, RewriteDoc(found[i].file.doc, found[i].packages, table))
  }

  /**
   * ExecuteAsync. The outcome is the exit code (or the error that ends the
   * run), the final Directory.Packages.props, whether the update step saved
   * it, and the project files saved, in order.
   */
  method ExecuteAsync(workspace: Workspace, template: Manifest, excludeDirectory: Option<string>,
                      build: DesignTimeBuild, compareTo: Comparer)
    returns (r: Result<int, MigrationError>, props: Manifest, propsSaved: bool, saved: seq<SavedFile>)
    ensures r.Failure? ==> !r.error.MissingLatest?
    ensures !propsSaved ==> props == InitialManifest(workspace, template)
    ensures workspace.packagesPropsExists ==> r == Success(1) && !propsSaved && saved == []
    ensures !workspace.packagesPropsExists && ScanProjects(Candidates(workspace, excludeDirectory), build).Failure? ==>
      r == Failure(ScanProjects(Candidates(workspace, excludeDirectory), build).error) && !propsSaved && saved == []
    ensures !workspace.packagesPropsExists && ScanProjects(Candidates(workspace, excludeDirectory), build) == Success([]) ==>
      r == Success(0) && !propsSaved && saved == []
    ensures (!workspace.packagesPropsExists && InitialManifest(workspace, template).itemGroupEnd.None? &&
       ScanProjects(Candidates(workspace, excludeDirectory), build).Success? &&
       ScanProjects(Candidates(workspace, excludeDirectory), build).value != []) ==>
      r == Failure(MissingItemGroup) && !propsSaved && saved == []
    ensures (!workspace.packagesPropsExists && InitialManifest(workspace, template).itemGroupEnd.Some? &&
       ScanProjects(Candidates(workspace, excludeDirectory), build).Success? &&
       ScanProjects(Candidates(workspace, excludeDirectory), build).value != []) ==>
      var initial := InitialManifest(workspace, template);
      var found := ScanProjects(Candidates(workspace, excludeDirectory), build).value;
      var table := FoldAll(PackagesOf(found), compareTo);
      && r == Success(0)
      && (propsSaved <==> TableNeedsEdit(initial.elements, table))
      && (forall id :: id in table ==>
            FirstMatchElement(props.elements, PackageVersionTag, id) ==
            Some(Upserted(FirstMatchElement(initial.elements, PackageVersionTag, id), table[id])))
      && (forall id :: id !in table ==>
            FirstMatchElement(props.elements, PackageVersionTag, id) == FirstMatchElement(initial.elements, PackageVersionTag, id))
      && SavedAll(saved, found, table)
  {
    props := InitialManifest(workspace, template);
    propsSaved := false;
    saved := [];
    if workspace.packagesPropsExists {
      return Success(1), props, propsSaved, saved;
    }
    var excludeDirectories := ExcludeDirectories(excludeDirectory);
    var projectFiles := FilterProjects(workspace.projects, excludeDirectories);
    ghost var buildsPerProject;
    var scan;
    scan, buildsPerProject := ParseProjectFiles(projectFiles, build, compareTo);
    if scan.Failure? {
      ScanErrors(projectFiles, build);
      return Failure(scan.error), props, propsSaved, saved;
    }
    var (latestPackageByName, packageInfoByProject) := scan.value;
    TableEmpty(projectFiles, build, compareTo);
    if latestPackageByName == map[] {
      return Success(0), props, propsSaved, saved;
    }
    var values := Values(latestPackageByName);
    var updated := UpdateDirectoryPackagesProps(props, values);
    if updated.Failure? {
      return Failure(updated.error), props, propsSaved, saved;
    }
    UpdatedManifest(props, latestPackageByName, values);
    if updated.value.Some? {
      props, propsSaved := updated.value.value, true;
    }
    TableCoversProjects(packageInfoByProject, compareTo);
    var written;
    saved, written := UpdateProjectFiles(packageInfoByProject, latestPackageByName);
    // every id of every project is in the table, so the lookup never misses
    assert written.Success?;
    return Success(0), props, propsSaved, saved;
  }
}
