/**
 * ProjectFileParser: reading one project's PackageReference elements into a
 * map from package id to package info, resolving `$(...)` placeholders with
 * at most one design-time build, and folding that map into the table of the
 * latest version of every package.
 */
module ProjectFileParser {
  import opened Wrappers
  import opened Xml
  import opened Packages
  import opened Placeholders

  /** `IAnalyzerResult.GetProperty`: the evaluated value of an MSBuild property. */
  type PropertyBag = string -> string

  /**
   * The design-time build of the project at a path: its first result, or
   * None when the build throws.
   */
  type DesignTimeBuild = string -> Option<PropertyBag>

  /** `SelectNodes("//PackageReference")`: the PackageReference elements in document order. */
  function PackageReferences(elems: seq<Element>): (r: seq<Element>)
    ensures |r| <= |elems|
    ensures forall e :: e in r <==> e in elems && e.name == PackageReferenceTag
  {
    if elems == [] then []
    else (if elems[0].name == PackageReferenceTag then [elems[0]] else []) + PackageReferences(elems[1..])
  }

  /**
   * The selection distributes over concatenation: every PackageReference is
   * selected once, in document order, whatever precedes or follows it.
   */
  lemma {:induction false} PackageReferencesConcat(a: seq<Element>, b: seq<Element>)
    ensures PackageReferences(a + b) == PackageReferences(a) + PackageReferences(b)
    decreases |a|
  {
    if a != [] {
      var head := if a[0].name == PackageReferenceTag then [a[0]] else [];
      assert (a + b)[0] == a[0];
      assert (a + b)[1..] == a[1..] + b;
      assert PackageReferences(a + b) == head + PackageReferences(a[1..] + b);
      PackageReferencesConcat(a[1..], b);
      assert PackageReferences(a) == head + PackageReferences(a[1..]);
      assert head + (PackageReferences(a[1..]) + PackageReferences(b)) == (head + PackageReferences(a[1..])) + PackageReferences(b);
    } else {
      assert a + b == b;
    }
  }


  /** The Include and the unresolved Version text of a reference the parser keeps. */
  datatype RawReference = RawReference(id: string, rawVersion: string)

  /**
   * A reference is kept when its Version is present and non-empty (checked
   * first) and its Include is present.
   */
  function ReadReference(e: Element): (r: Option<RawReference>)
    ensures r.Some? ==> Attribute(e, IncludeAttr) == Some(r.value.id)
    ensures r.Some? ==> Attribute(e, VersionAttr) == Some(r.value.rawVersion) && r.value.rawVersion != ""
    ensures r.None? ==> Attribute(e, VersionAttr) in {None, Some("")} || Attribute(e, IncludeAttr).None?
  {
    match Attribute(e, VersionAttr)
    case None => None
    case Some(version) =>
      if version == "" then None
      else match Attribute(e, IncludeAttr)
        case None => None
        case Some(id) => Some(RawReference(id, version))
  }

  /** The reference is kept and its version has a placeholder match, so it needs the build. */
  predicate NeedsBuild(e: Element)
  {
    ReadReference(e).Some? && MatchTexts(ReadReference(e).value.rawVersion) != []
  }

  /** The stored version: the raw text when it has no match, else its resolution with the build's properties. */
  function ResolvedVersion(raw: string, bag: Option<PropertyBag>): (r: string)
    ensures MatchTexts(raw) == [] ==> r == raw
    ensures MatchTexts(raw) != [] && bag.Some? ==> r == Resolve(raw, bag.value)
  {
    if MatchTexts(raw) == [] || bag.None? then raw else Resolve(raw, bag.value)
  }

  /**
   * What one reference does to the map being built: a skipped reference
   * leaves it as it is; a kept one is added under its Include, unless the
   * build it needs fails or its Include is already a key. bag is what the
   * project's design-time build gives; a failing build is reported before
   * the duplicate check, as the build runs before `Dictionary.Add`.
   */
  function AddReference(e: Element, path: string, bag: Option<PropertyBag>, acc: PackageMap): Result<PackageMap, MigrationError>
  {
    match ReadReference(e)
    case None => Success(acc)
    case Some(rr) =>
      if NeedsBuild(e) && bag.None? then Failure(BuildFailed(path))
      else if rr.id in acc then Failure(DuplicateInclude(path, rr.id))
      else Success(acc[rr.id := PackageInfo(rr.id, ResolvedVersion(rr.rawVersion, bag))])
  }

  /** The references, in order, added to acc; the first failure aborts. */
  function ParseReferences(refs: seq<Element>, path: string, bag: Option<PropertyBag>, acc: PackageMap): Result<PackageMap, MigrationError>
    decreases |refs|
  {
    if refs == [] then Success(acc)
    else match AddReference(refs[0], path, bag, acc)
      case Failure(err) => Failure(err)
      case Success(acc') => ParseReferences(refs[1..], path, bag, acc')
  }

  /** The packages of the project at path, as ParseProjectFile computes them. */
  function ParseProject(path: string, doc: ProjectDoc, build: DesignTimeBuild): Result<PackageMap, MigrationError>
  {
    ParseReferences(PackageReferences(doc.elements), path, build(path), map[])
  }

  /** Reading a project fails only with a build failure or a duplicate Include, each naming that project. */
  lemma {:induction false} ParseReferencesErrors(refs: seq<Element>, path: string, bag: Option<PropertyBag>, acc: PackageMap)
    ensures var r := ParseReferences(refs, path, bag, acc);
      r.Failure? ==> r.error == BuildFailed(path) || (r.error.DuplicateInclude? && r.error.project == path)
    decreases |refs|
  {
    if refs != [] && AddReference(refs[0], path, bag, acc).Success? {
      ParseReferencesErrors(refs[1..], path, bag, AddReference(refs[0], path, bag, acc).value);
    }
  }

  /** One step of ParseReferences, taken at index n. */
  lemma ParseReferencesStep(refs: seq<Element>, n: nat, path: string, bag: Option<PropertyBag>, acc: PackageMap)
    requires n < |refs|
    ensures ParseReferences(refs[n..], path, bag, acc) ==
      match AddReference(refs[n], path, bag, acc)
      case Failure(err) => Failure(err)
      case Success(acc') => ParseReferences(refs[n + 1..], path, bag, acc')
  {
    assert refs[n..][0] == refs[n];
    assert refs[n..][1..] == refs[n + 1..];
  }

  /** Some reference of refs needs the design-time build. */
  predicate AnyNeedsBuild(refs: seq<Element>)
  {
    exists e :: e in refs && NeedsBuild(e)
  }

  lemma AnyNeedsBuildPrefix(refs: seq<Element>, n: nat)
    requires n < |refs|
    ensures AnyNeedsBuild(refs[..n + 1]) <==> AnyNeedsBuild(refs[..n]) || NeedsBuild(refs[n])
  {
    assert refs[..n + 1] == refs[..n] + [refs[n]];
  }

  /** Resolving the matches from index k on: the one at k first, then the rest. */
  lemma ResolveWithStep(current: string, texts: seq<string>, k: nat, getProperty: string -> string)
    requires k < |texts| && forall t :: t in texts ==> |t| >= 3
    ensures ResolveWith(current, texts[k..], getProperty) ==
      ResolveWith(Replace(current, texts[k], getProperty(PropertyName(texts[k]))), texts[k + 1..], getProperty)
  {
    assert texts[k..][0] == texts[k] && texts[k..][1..] == texts[k + 1..];
  }

  /**
   * The loop over the placeholder matches of one kept reference: each match
   * is replaced, in turn, by the value of its property. The design-time
   * build runs before the first replacement unless firstBuildResult already
   * holds its result; version is None when that build throws.
   */
  method ResolveMatches(path: string, raw: string, build: DesignTimeBuild, firstBuildResult: Option<PropertyBag>)
    returns (version: Option<string>, buildResult: Option<PropertyBag>, ghost built: bool)
    requires firstBuildResult.Some? ==> firstBuildResult == build(path)
    ensures built <==> firstBuildResult.None? && MatchTexts(raw) != []
    ensures buildResult == if built then build(path) else firstBuildResult
    ensures version.None? <==> built && build(path).None?
    ensures version.Some? ==> version.value == ResolvedVersion(raw, build(path))
  {
    var current := raw;
    buildResult := firstBuildResult;
    built := false;
    var variablesToReplace := MatchTexts(raw);
    var k := 0;
    while k < |variablesToReplace|
      invariant k <= |variablesToReplace|
      invariant k == 0 ==> current == raw
      invariant k > 0 ==> buildResult.Some?
      invariant built <==> firstBuildResult.None? && k > 0
      invariant buildResult == if built then build(path) else firstBuildResult
      invariant buildResult.Some? ==>
        Resolve(raw, buildResult.value) == ResolveWith(current, variablesToReplace[k..], buildResult.value)
    {
      if buildResult.None? {
        buildResult := build(path);
        built := true;
        if buildResult.None? {
          return None, buildResult, built;
        }
        assert variablesToReplace[k..] == variablesToReplace;
        assert Resolve(raw, buildResult.value) == ResolveWith(current, variablesToReplace[k..], buildResult.value);
      }
      var getProperty := buildResult.value;
      var replaceVariable := variablesToReplace[k];
      var propertyName := PropertyName(replaceVariable);
      var resolvedVariable := getProperty(propertyName);
      ResolveWithStep(current, variablesToReplace, k, getProperty);
      current := Replace(current, replaceVariable, resolvedVariable);
      k := k + 1;
    }
    if k > 0 {
      assert variablesToReplace[k..] == [];
    }
    return Some(current), buildResult, built;
  }

  /**
   * One pass of the loop over the PackageReference elements: a reference
   * without a non-empty Version, or else without an Include, is skipped
   * without a build; otherwise its placeholders are resolved and it is added
   * to packagesInProject, which fails on an Include already there.
   */
  method AddPackageReference(path: string, packageReference: Element, build: DesignTimeBuild,
                             firstBuildResult: Option<PropertyBag>, packagesInProject: PackageMap)
    returns (r: Result<PackageMap, MigrationError>, buildResult: Option<PropertyBag>, ghost built: bool)
    requires firstBuildResult.Some? ==> firstBuildResult == build(path)
    ensures r == AddReference(packageReference, path, build(path), packagesInProject)
    ensures built <==> firstBuildResult.None? && NeedsBuild(packageReference)
    ensures buildResult == if built then build(path) else firstBuildResult
  {
    var packageName := Attribute(packageReference, IncludeAttr);
    var packageVersion := Attribute(packageReference, VersionAttr);
    if packageVersion.None? || packageVersion.value == "" {
      return Success(packagesInProject), firstBuildResult, false;
    }
    if packageName.None? {
      return Success(packagesInProject), firstBuildResult, false;
    }
    assert ReadReference(packageReference) == Some(RawReference(packageName.value, packageVersion.value));
    var version;
    version, buildResult, built := ResolveMatches(path, packageVersion.value, build, firstBuildResult);
    if version.None? {
      return Failure(BuildFailed(path)), buildResult, built;
    }
    var packageInfo := PackageInfo(packageName.value, version.value);
    if packageName.value in packagesInProject {
      return Failure(DuplicateInclude(path, packageName.value)), buildResult, built;
    }
    KeyedByIdInsert(packagesInProject, packageInfo);
    return Success(packagesInProject[packageName.value := packageInfo]), buildResult, built;
  }

  /**
   * ParseProjectFile. The design-time build runs at most once, and only when
   * a kept reference has a placeholder; builds counts its runs.
   */
  method ParseProjectFile(path: string, doc: ProjectDoc, build: DesignTimeBuild)
    returns (r: Result<PackageMap, MigrationError>, ghost builds: nat)
    ensures r == ParseProject(path, doc, build)
    ensures builds <= 1
    ensures builds == 1 ==> AnyNeedsBuild(PackageReferences(doc.elements))
    ensures r.Success? ==> (builds == 1 <==> AnyNeedsBuild(PackageReferences(doc.elements)))
    ensures r.Failure? && r.error.BuildFailed? ==> builds == 1
  {
    var packageReferences := PackageReferences(doc.elements);
    var firstBuildResult: Option<PropertyBag> := None;
    var packagesInProject: PackageMap := map[];
    builds := 0;
    if |packageReferences| < 1 {
      assert !AnyNeedsBuild(packageReferences);
      return Success(packagesInProject), builds;
    }
    ghost var spec := ParseProject(path, doc, build);
    var n := 0;
    while n < |packageReferences|
      invariant n <= |packageReferences|
      invariant spec == ParseReferences(packageReferences[n..], path, build(path), packagesInProject)
      invariant firstBuildResult.Some? ==> firstBuildResult == build(path)
      invariant builds == if firstBuildResult.Some? then 1 else 0
      invariant firstBuildResult.Some? <==> AnyNeedsBuild(packageReferences[..n])
    {
      ParseReferencesStep(packageReferences, n, path, build(path), packagesInProject);
      AnyNeedsBuildPrefix(packageReferences, n);
      var added, buildResult, built := AddPackageReference(path, packageReferences[n], build, firstBuildResult, packagesInProject);
      firstBuildResult := buildResult;
      if built {
        builds := builds + 1;
      }
      if added.Failure? {
        return Failure(added.error), builds;
      }
      packagesInProject := added.value;
      n := n + 1;
    }
    assert packageReferences[n..] == [];
    assert packageReferences[..n] == packageReferences;
    return Success(packagesInProject), builds;
  }

  /** Some kept reference of refs has Include id. */
  ghost predicate Kept(refs: seq<Element>, id: string)
  {
    exists e :: e in refs && ReadReference(e).Some? && ReadReference(e).value.id == id
  }

  /**
   * The references can all be added to acc: no kept Include is already a
   * key or occurs twice, and the build is available if some reference needs it.
   */
  ghost predicate ParsesCleanly(refs: seq<Element>, bag: Option<PropertyBag>, acc: PackageMap)
  {
    && (forall i :: 0 <= i < |refs| && ReadReference(refs[i]).Some? ==> ReadReference(refs[i]).value.id !in acc)
    && (forall i, j :: 0 <= i < j < |refs| && ReadReference(refs[i]).Some? && ReadReference(refs[j]).Some? ==>
          ReadReference(refs[i]).value.id != ReadReference(refs[j]).value.id)
    && (bag.None? ==> forall i :: 0 <= i < |refs| ==> !NeedsBuild(refs[i]))
  }

  /** ParsesCleanly for refs, split into its first reference and the rest. */
  lemma ParsesCleanlyCons(refs: seq<Element>, bag: Option<PropertyBag>, acc: PackageMap)
    requires refs != [] && ReadReference(refs[0]).Some?
    requires !(NeedsBuild(refs[0]) && bag.None?) && ReadReference(refs[0]).value.id !in acc
    ensures var rr := ReadReference(refs[0]).value;
      ParsesCleanly(refs, bag, acc) <==>
      ParsesCleanly(refs[1..], bag, acc[rr.id := PackageInfo(rr.id, ResolvedVersion(rr.rawVersion, bag))])
  {
    var rr := ReadReference(refs[0]).value;
    var acc' := acc[rr.id := PackageInfo(rr.id, ResolvedVersion(rr.rawVersion, bag))];
    var rest := refs[1..];
    assert forall i :: 0 <= i < |rest| ==> rest[i] == refs[i + 1];
    if ParsesCleanly(refs, bag, acc) {
      forall i | 0 <= i < |rest| && ReadReference(rest[i]).Some?
        ensures ReadReference(rest[i]).value.id !in acc'
      {
        assert ReadReference(refs[0]).value.id != ReadReference(refs[i + 1]).value.id;
      }
    }
    if ParsesCleanly(rest, bag, acc') {
      forall i, j | 0 <= i < j < |refs| && ReadReference(refs[i]).Some? && ReadReference(refs[j]).Some?
        ensures ReadReference(refs[i]).value.id != ReadReference(refs[j]).value.id
      {
        if i == 0 {
          assert ReadReference(rest[j - 1]).value.id !in acc';
        } else {
          assert rest[i - 1] == refs[i] && rest[j - 1] == refs[j];
        }
      }
      forall i | 0 <= i < |refs| && ReadReference(refs[i]).Some?
        ensures ReadReference(refs[i]).value.id !in acc
      {
        if i > 0 {
          assert rest[i - 1] == refs[i];
        }
      }
      if bag.None? {
        forall i | 0 <= i < |refs| ensures !NeedsBuild(refs[i]) {
          if i > 0 {
            assert rest[i - 1] == refs[i];
          }
        }
      }
    }
  }

  /** A skipped first reference does not affect ParsesCleanly. */
  lemma ParsesCleanlySkip(refs: seq<Element>, bag: Option<PropertyBag>, acc: PackageMap)
    requires refs != [] && ReadReference(refs[0]).None?
    ensures ParsesCleanly(refs, bag, acc) <==> ParsesCleanly(refs[1..], bag, acc)
  {
    var rest := refs[1..];
    assert forall i :: 0 <= i < |rest| ==> rest[i] == refs[i + 1];
    if ParsesCleanly(rest, bag, acc) {
      assert forall i, j :: 0 < i < j < |refs| ==> refs[i] == rest[i - 1] && refs[j] == rest[j - 1];
    }
  }

  /** A clean parse can add its first kept reference. */
  lemma ParsesCleanlyHead(refs: seq<Element>, bag: Option<PropertyBag>, acc: PackageMap)
    requires refs != [] && ReadReference(refs[0]).Some?
    ensures ParsesCleanly(refs, bag, acc) ==>
      !(NeedsBuild(refs[0]) && bag.None?) && ReadReference(refs[0]).value.id !in acc
  {
  }

  /**
   * ParseReferences succeeds exactly when the references parse cleanly; the
   * first offending reference decides the error otherwise.
   */
  lemma {:induction false} ParseReferencesSucceeds(refs: seq<Element>, path: string, bag: Option<PropertyBag>, acc: PackageMap)
    ensures ParseReferences(refs, path, bag, acc).Success? <==> ParsesCleanly(refs, bag, acc)
    decreases |refs|
  {
    if refs != [] {
      var rest := refs[1..];
      assert forall i :: 0 <= i < |rest| ==> rest[i] == refs[i + 1];
      match ReadReference(refs[0])
      case None =>
        ParseReferencesSucceeds(rest, path, bag, acc);
        ParsesCleanlySkip(refs, bag, acc);
      case Some(rr) =>
        ParsesCleanlyHead(refs, bag, acc);
        if !(NeedsBuild(refs[0]) && bag.None?) && rr.id !in acc {
          var acc' := acc[rr.id := PackageInfo(rr.id, ResolvedVersion(rr.rawVersion, bag))];
          ParseReferencesSucceeds(rest, path, bag, acc');
          ParsesCleanlyCons(refs, bag, acc);
        }
    }
  }

  /**
   * On success the map holds acc and, under the Include of every kept
   * reference, the package with its resolved version, and nothing else.
   */
  lemma {:induction false} ParseReferencesContents(refs: seq<Element>, path: string, bag: Option<PropertyBag>, acc: PackageMap)
    requires ParseReferences(refs, path, bag, acc).Success?
    ensures var m := ParseReferences(refs, path, bag, acc).value;
      && (forall k :: k in m <==> k in acc || Kept(refs, k))
      && (forall k :: k in acc ==> m[k] == acc[k])
      && (forall e :: e in refs && ReadReference(e).Some? ==>
            var rr := ReadReference(e).value;
            rr.id in m && m[rr.id] == PackageInfo(rr.id, ResolvedVersion(rr.rawVersion, bag)))
    decreases |refs|
  {
    if refs != [] {
      var rest := refs[1..];
      assert forall e :: e in refs <==> e == refs[0] || e in rest;
      match ReadReference(refs[0])
      case None =>
        ParseReferencesContents(rest, path, bag, acc);
      case Some(rr) =>
        var acc' := acc[rr.id := PackageInfo(rr.id, ResolvedVersion(rr.rawVersion, bag))];
        ParseReferencesContents(rest, path, bag, acc');
        var m := ParseReferences(refs, path, bag, acc).value;
        forall k ensures k in m <==> k in acc || Kept(refs, k) {
          if Kept(rest, k) {
            var e :| e in rest && ReadReference(e).Some? && ReadReference(e).value.id == k;
            assert e in refs;
          }
          if k == rr.id {
            assert refs[0] in refs;
          }
        }
    }
  }

  /**
   * ParseProjectFile's result: it fails exactly when two kept references
   * share an Include or a needed build throws; otherwise the map has one
   * entry per kept Include, holding its resolved version, which is the raw
   * Version text itself when that has no placeholder.
   */
  lemma ParseProjectSpec(path: string, doc: ProjectDoc, build: DesignTimeBuild)
    ensures var refs := PackageReferences(doc.elements);
      ParseProject(path, doc, build).Success? <==> ParsesCleanly(refs, build(path), map[])
    ensures var refs := PackageReferences(doc.elements);
      ParseProject(path, doc, build).Success? ==>
      var m := ParseProject(path, doc, build).value;
      && (forall k :: k in m <==> Kept(refs, k))
      && (forall e :: e in refs && ReadReference(e).Some? ==>
            var rr := ReadReference(e).value;
            rr.id in m && m[rr.id] == PackageInfo(rr.id, ResolvedVersion(rr.rawVersion, build(path))))
      && (forall e :: e in refs && ReadReference(e).Some? && MatchTexts(ReadReference(e).value.rawVersion) == [] ==>
            m[ReadReference(e).value.id].version == ReadReference(e).value.rawVersion)
  {
    var refs := PackageReferences(doc.elements);
    ParseReferencesSucceeds(refs, path, build(path), map[]);
    if ParseProject(path, doc, build).Success? {
      ParseReferencesContents(refs, path, build(path), map[]);
    }
  }

  /**
   * The table after folding in one project's packages: a package id not yet
   * in the table is inserted, and an existing entry is replaced only when
   * the project's package compares as newer (CompareTo returns 1).
   */
  function FoldProject(latest: PackageMap, packages: PackageMap, compareTo: Comparer): (r: PackageMap)
    ensures r.Keys == latest.Keys + packages.Keys
  {
    map k | k in latest.Keys + packages.Keys ::
      if k in packages && (k !in latest || IsNewer(compareTo, packages[k], latest[k])) then packages[k] else latest[k]
  }

  lemma FoldProjectNothing(latest: PackageMap, packages: PackageMap, compareTo: Comparer)
    ensures FoldProject(latest, Restrict(packages, {}), compareTo) == latest
  {
    assert Restrict(packages, {}) == map[];
  }

  /** Folding in one more package of the project is one step of the loop in ProcessProjectFile. */
  lemma FoldProjectStep(latest: PackageMap, packages: PackageMap, done: set<string>, id: string, compareTo: Comparer)
    requires id in packages && id !in done
    ensures var before := FoldProject(latest, Restrict(packages, done), compareTo);
      var info := packages[id];
      FoldProject(latest, Restrict(packages, done + {id}), compareTo) ==
        if id !in before || IsNewer(compareTo, info, before[id]) then before[id := info] else before
  {
    var r := Restrict(packages, done);
    RestrictInsert(packages, done, id);
    FoldProjectInsert(latest, r, packages[id], compareTo);
  }

  /** Folding in a map with one more entry, whose id it did not have. */
  lemma FoldProjectInsert(latest: PackageMap, packages: PackageMap, info: PackageInfo, compareTo: Comparer)
    requires info.id !in packages
    ensures var before := FoldProject(latest, packages, compareTo);
      FoldProject(latest, packages[info.id := info], compareTo) ==
        if info.id !in before || IsNewer(compareTo, info, before[info.id]) then before[info.id := info] else before
  {
    var before := FoldProject(latest, packages, compareTo);
    var after := FoldProject(latest, packages[info.id := info], compareTo);
    var expected := if info.id !in before || IsNewer(compareTo, info, before[info.id]) then before[info.id := info] else before;
    assert after.Keys == expected.Keys;
    forall k | k in after ensures after[k] == expected[k] {
    }
  }

  /**
   * The loop of ProcessProjectFile over the project's packages, in
   * dictionary order (any order): each is inserted into the table when its
   * id is new, and replaces the table's entry only when CompareTo returns 1.
   */
  method FoldIntoLatest(latestPackage: PackageMap, packagesInProject: PackageMap, compareTo: Comparer)
    returns (latest: PackageMap)
    ensures latest == FoldProject(latestPackage, packagesInProject, compareTo)
  {
    latest := latestPackage;
    var remaining := packagesInProject.Keys;
    ghost var done: set<string> := {};
    FoldProjectNothing(latestPackage, packagesInProject, compareTo);
    while remaining != {}
      invariant remaining <= packagesInProject.Keys && done == packagesInProject.Keys - remaining
      invariant latest == FoldProject(latestPackage, Restrict(packagesInProject, done), compareTo)
      decreases |remaining|
    {
      var packageName :| packageName in remaining;
      var packageInfo := packagesInProject[packageName];
      FoldProjectStep(latestPackage, packagesInProject, done, packageName, compareTo);
      if packageName in latest {
        var latestPackageVersion := latest[packageName];
        if compareTo(packageInfo, latestPackageVersion) == 1 {
          latest := latest[packageName := packageInfo];
        }
      } else {
        latest := latest[packageName := packageInfo];
      }
      remaining := remaining - {packageName};
      done := done + {packageName};
    }
    assert done == packagesInProject.Keys;
    RestrictAll(packagesInProject);
  }

  /**
   * ProcessProjectFile: parses the project and folds its packages into the
   * caller's table. The packages are returned, or None when the project has
   * none; a failed parse leaves the table as it was.
   */
  method ProcessProjectFile(path: string, doc: ProjectDoc, build: DesignTimeBuild, latestPackage: PackageMap, compareTo: Comparer)
    returns (r: Result<Option<PackageMap>, MigrationError>, latest: PackageMap, ghost builds: nat)
    ensures builds <= 1
    ensures builds == 1 ==> AnyNeedsBuild(PackageReferences(doc.elements))
    ensures r.Success? ==> (builds == 1 <==> AnyNeedsBuild(PackageReferences(doc.elements)))
    ensures ParseProject(path, doc, build).Failure? ==>
      r == Failure(ParseProject(path, doc, build).error) && latest == latestPackage
    ensures ParseProject(path, doc, build).Success? ==>
      var packages := ParseProject(path, doc, build).value;
      && r == Success(if packages == map[] then None else Some(packages))
      && latest == FoldProject(latestPackage, packages, compareTo)
  {
    var parsed;
    parsed, builds := ParseProjectFile(path, doc, build);
    if parsed.Failure? {
      return Failure(parsed.error), latestPackage, builds;
    }
    var packagesInProject := parsed.value;
    latest := FoldIntoLatest(latestPackage, packagesInProject, compareTo);
    if |packagesInProject| > 0 {
      return Success(Some(packagesInProject)), latest, builds;
    }
    return Success(None), latest, builds;
  }

  /** The table after folding in the packages of every project, in order, from an empty table. */
  function FoldAll(maps: seq<PackageMap>, compareTo: Comparer): PackageMap
    decreases |maps|
  {
    if maps == [] then map[]
    else FoldProject(FoldAll(maps[..|maps| - 1], compareTo), maps[|maps| - 1], compareTo)
  }

  /** The table holds exactly the package ids that occur in some project. */
  lemma {:induction false} FoldAllKeys(maps: seq<PackageMap>, compareTo: Comparer)
    ensures forall k :: k in FoldAll(maps, compareTo) <==> exists i :: 0 <= i < |maps| && k in maps[i]
    decreases |maps|
  {
    if maps != [] {
      var prefix := maps[..|maps| - 1];
      FoldAllKeys(prefix, compareTo);
      assert forall i :: 0 <= i < |prefix| ==> prefix[i] == maps[i];
      forall k | exists i :: 0 <= i < |maps| && k in maps[i]
        ensures k in FoldAll(maps, compareTo)
      {
        var i :| 0 <= i < |maps| && k in maps[i];
        if i < |prefix| {
          assert k in prefix[i];
        }
      }
    }
  }

  /**
   * With CompareTo a strict order, no project's entry for a package is newer
   * than the table's entry for it.
   */
  lemma {:induction false} FoldAllUpperBound(maps: seq<PackageMap>, compareTo: Comparer)
    requires StrictOrder(compareTo)
    ensures forall i, k :: 0 <= i < |maps| && k in maps[i] ==>
      k in FoldAll(maps, compareTo) && !IsNewer(compareTo, maps[i][k], FoldAll(maps, compareTo)[k])
    decreases |maps|
  {
    if maps != [] {
      var n := |maps| - 1;
      var prefix := maps[..n];
      var m := maps[n];
      var before := FoldAll(prefix, compareTo);
      var latest := FoldAll(maps, compareTo);
      FoldAllUpperBound(prefix, compareTo);
      forall i, k | 0 <= i < |maps| && k in maps[i]
        ensures k in latest && !IsNewer(compareTo, maps[i][k], latest[k])
      {
        if i < n {
          assert prefix[i] == maps[i] && k in prefix[i];
          assert k in before && !IsNewer(compareTo, maps[i][k], before[k]);
          if k in m && IsNewer(compareTo, m[k], before[k]) {
            assert latest[k] == m[k];
            NotNewerThanNewer(compareTo, maps[i][k], m[k], before[k]);
          }
        } else {
          NewerIrreflexive(compareTo, m[k]);
        }
      }
    }
  }

  /** The table entry for k is the entry of project i, and every earlier project's entry for k is older. */
  ghost predicate FirstMaximalAt(maps: seq<PackageMap>, compareTo: Comparer, latest: PackageMap, k: string, i: int)
    requires k in latest
  {
    0 <= i < |maps| && k in maps[i] && latest[k] == maps[i][k] &&
    forall j :: 0 <= j < i && k in maps[j] ==> IsNewer(compareTo, latest[k], maps[j][k])
  }

  /**
   * With CompareTo a strict weak order (its "not newer" a total preorder),
   * every table entry is the first entry, in project order, with a maximal
   * version: it comes from some project, every earlier project's entry for
   * it is strictly older, and (FoldAllUpperBound) no project's entry is newer.
   */
  lemma {:induction false} FoldAllFirstMaximal(maps: seq<PackageMap>, compareTo: Comparer)
    requires StrictWeakOrder(compareTo)
    ensures forall k :: k in FoldAll(maps, compareTo) ==> exists i :: FirstMaximalAt(maps, compareTo, FoldAll(maps, compareTo), k, i)
    decreases |maps|
  {
    if maps != [] {
      var n := |maps| - 1;
      var prefix := maps[..n];
      var m := maps[n];
      var before := FoldAll(prefix, compareTo);
      var latest := FoldAll(maps, compareTo);
      FoldAllFirstMaximal(prefix, compareTo);
      FoldAllUpperBound(prefix, compareTo);
      FoldAllKeys(prefix, compareTo);
      assert forall i :: 0 <= i < n ==> prefix[i] == maps[i];
      forall k | k in latest ensures exists i :: FirstMaximalAt(maps, compareTo, latest, k, i) {
        if k in m && (k !in before || IsNewer(compareTo, m[k], before[k])) {
          assert latest[k] == m[k];
          forall j | 0 <= j < n && k in maps[j] ensures IsNewer(compareTo, latest[k], maps[j][k]) {
            assert k in prefix[j];
            assert !IsNewer(compareTo, prefix[j][k], before[k]);
            NewerWeak(compareTo, m[k], maps[j][k], before[k]);
          }
          assert FirstMaximalAt(maps, compareTo, latest, k, n);
        } else {
          assert k in before && latest[k] == before[k];
          var i :| FirstMaximalAt(prefix, compareTo, before, k, i);
          assert FirstMaximalAt(maps, compareTo, latest, k, i);
        }
      }
    }
  }
}
