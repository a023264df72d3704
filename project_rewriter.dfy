/**
 * UpdateProjectFiles: rewriting the PackageReference elements of every
 * project that has packages. The element each package's query selects
 * loses its Version; a package that is not the latest version in the
 * table gets a VersionOverride with its own version instead. Every
 * project with packages is saved.
 */
module ProjectRewriter {
  import opened Wrappers
  import opened Xml
  import opened Packages
  import opened ProjectFileParser

  /** A project with the packages its parse produced (an entry of packageInfoByProject). */
  datatype ParsedProject = ParsedProject(file: ProjectFile, packages: PackageMap)

  /** A file written back to disk. */
  datatype SavedFile = SavedFile(path: string, doc: ProjectDoc)

  /**
   * The element selected for package p after its edit: Version removed, and
   * unless p is the latest version a VersionOverride set to p's version,
   * namespace-qualified exactly when the project uses the legacy namespace.
   */
  function Rewritten(e: Element, p: PackageInfo, isLatest: bool, legacy: bool): (r: Element)
    ensures r.name == e.name && Attribute(r, IncludeAttr) == Attribute(e, IncludeAttr)
  {
    var removed := RemoveAttribute(e, AttrName(VersionAttr, false));
    if isLatest then removed else SetAttribute(removed, AttrName(VersionOverrideAttr, legacy), p.version)
  }

  /** The rewritten element has no Version; every attribute other than Version and the override keeps its value. */
  lemma RewrittenAttributes(e: Element, p: PackageInfo, isLatest: bool, legacy: bool)
    ensures var r := Rewritten(e, p, isLatest, legacy);
      && AttrName(VersionAttr, false) !in r.attrs
      && (!isLatest ==> AttrName(VersionOverrideAttr, legacy) in r.attrs && r.attrs[AttrName(VersionOverrideAttr, legacy)] == p.version)
      && (forall a :: a != AttrName(VersionAttr, false) && (isLatest || a != AttrName(VersionOverrideAttr, legacy)) ==>
            (a in r.attrs <==> a in e.attrs) && (a in e.attrs ==> r.attrs[a] == e.attrs[a]))
  {
  }

  /**
   * Element i once the packages whose ids are in ids have been handled:
   * rewritten when it is the element the query
   * `//PackageReference[@Include='id']` selects for such a package, else as
   * it was.
   */
  function RewriteAt(elems: seq<Element>, i: nat, packages: PackageMap, ids: set<string>, latest: PackageMap, legacy: bool): Element
    requires i < |elems| && packages.Keys * ids <= latest.Keys
  {
    var e := elems[i];
    match Attribute(e, IncludeAttr)
    case Some(id) =>
      if e.name == PackageReferenceTag && id in packages && id in ids && FirstMatch(elems, PackageReferenceTag, id) == Some(i) then
        Rewritten(e, packages[id], latest[id] == packages[id], legacy)
      else e
    case None => e
  }

  /** The project's elements once the packages whose ids are in ids have been handled, in any order. */
  function RewriteElements(elems: seq<Element>, packages: PackageMap, ids: set<string>, latest: PackageMap, legacy: bool): (r: seq<Element>)
    requires packages.Keys * ids <= latest.Keys
    ensures |r| == |elems|
  {
    seq(|elems|, i requires 0 <= i < |elems| => RewriteAt(elems, i, packages, ids, latest, legacy))
  }

  /** The project file after the loop over all its packages. */
  function RewriteDoc(doc: ProjectDoc, packages: PackageMap, latest: PackageMap): ProjectDoc
    requires packages.Keys <= latest.Keys
  {
    ProjectDoc(doc.legacy, RewriteElements(doc.elements, packages, packages.Keys, latest, doc.legacy))
  }

  /** The rewrite keeps every query's answer. */
  lemma RewriteKeepsQueries(elems: seq<Element>, packages: PackageMap, ids: set<string>, latest: PackageMap, legacy: bool, id: string)
    requires packages.Keys * ids <= latest.Keys
    ensures FirstMatch(RewriteElements(elems, packages, ids, latest, legacy), PackageReferenceTag, id) == FirstMatch(elems, PackageReferenceTag, id)
  {
    var r := RewriteElements(elems, packages, ids, latest, legacy);
    assert forall i :: 0 <= i < |elems| ==> r[i].name == elems[i].name && Attribute(r[i], IncludeAttr) == Attribute(elems[i], IncludeAttr);
    FirstMatchSameKeys(r, elems, PackageReferenceTag, id);
  }

  /** Handling one more package edits the element its query selects, if any, and nothing else. */
  lemma RewriteStep(elems: seq<Element>, packages: PackageMap, ids: set<string>, id: string, latest: PackageMap, legacy: bool)
    requires id in packages && id !in ids && packages.Keys * (ids + {id}) <= latest.Keys
    ensures var i := FirstMatch(elems, PackageReferenceTag, id);
      i.Some? ==> RewriteElements(elems, packages, ids, latest, legacy)[i.value] == elems[i.value]
    ensures var before := RewriteElements(elems, packages, ids, latest, legacy);
      RewriteElements(elems, packages, ids + {id}, latest, legacy) ==
      match FirstMatch(elems, PackageReferenceTag, id)
      case Some(i) => before[i := Rewritten(elems[i], packages[id], latest[id] == packages[id], legacy)]
      case None => before
  {
    var before := RewriteElements(elems, packages, ids, latest, legacy);
    var after := RewriteElements(elems, packages, ids + {id}, latest, legacy);
    forall j | 0 <= j < |elems|
      ensures after[j] ==
        if FirstMatch(elems, PackageReferenceTag, id) == Some(j) then Rewritten(elems[j], packages[id], latest[id] == packages[id], legacy)
        else before[j]
    {
      RewriteAtStep(elems, j, packages, ids, id, latest, legacy);
    }
  }

  /** RewriteStep at one index. */
  lemma RewriteAtStep(elems: seq<Element>, j: nat, packages: PackageMap, ids: set<string>, id: string, latest: PackageMap, legacy: bool)
    requires j < |elems| && id in packages && id !in ids && packages.Keys * (ids + {id}) <= latest.Keys
    ensures FirstMatch(elems, PackageReferenceTag, id) == Some(j) ==> RewriteAt(elems, j, packages, ids, latest, legacy) == elems[j]
    ensures RewriteAt(elems, j, packages, ids + {id}, latest, legacy) ==
      if FirstMatch(elems, PackageReferenceTag, id) == Some(j) then Rewritten(elems[j], packages[id], latest[id] == packages[id], legacy)
      else RewriteAt(elems, j, packages, ids, latest, legacy)
  {
  }

  /** With no package handled yet, the elements are as read. */
  lemma RewriteNothing(elems: seq<Element>, packages: PackageMap, latest: PackageMap, legacy: bool)
    ensures RewriteElements(elems, packages, {}, latest, legacy) == elems
  {
    forall i | 0 <= i < |elems| ensures RewriteAt(elems, i, packages, {}, latest, legacy) == elems[i] {
    }
  }

  /**
   * The loop over one project's packages (in dictionary order, here any
   * order). Looking up a package missing from the table throws; the project
   * is then not saved.
   */
  method RewriteProject(doc: ProjectDoc, packages: PackageMap, latest: PackageMap)
    returns (r: Result<ProjectDoc, MigrationError>)
    ensures r.Failure? <==> !(packages.Keys <= latest.Keys)
    ensures r.Failure? ==> r.error.MissingLatest? && r.error.id in packages && r.error.id !in latest
    ensures r.Success? ==> packages.Keys <= latest.Keys && r.value == RewriteDoc(doc, packages, latest)
  {
    var isLegacyProject := doc.legacy;
    var elements := doc.elements;
    var remaining := packages.Keys;
    ghost var done: set<string> := {};
    RewriteNothing(doc.elements, packages, latest, isLegacyProject);
    while remaining != {}
      invariant remaining <= packages.Keys && done == packages.Keys - remaining
      invariant done <= latest.Keys
      invariant elements == RewriteElements(doc.elements, packages, done, latest, isLegacyProject)
      decreases |remaining|
    {
      var id :| id in remaining;
      var packageInfo := packages[id];
      if id !in latest {
        return Failure(MissingLatest(id));
      }
      elements := RewritePackage(elements, doc.elements, packages, done, packageInfo, latest, isLegacyProject);
      remaining := remaining - {id};
      done := done + {id};
    }
    return Success(ProjectDoc(isLegacyProject, elements));
  }

  /**
   * One iteration of the loop over a project's packages: the element the
   * query for the package selects loses its Version and, unless the package
   * is the latest version, gets a VersionOverride.
   */
  method RewritePackage(elements: seq<Element>, ghost elems: seq<Element>, ghost packages: PackageMap, ghost done: set<string>,
                        packageInfo: PackageInfo, latest: PackageMap, isLegacyProject: bool)
    returns (elements': seq<Element>)
    requires packageInfo.id in packages && packages[packageInfo.id] == packageInfo && packageInfo.id !in done
    requires packageInfo.id in latest && packages.Keys * done <= latest.Keys
    requires elements == RewriteElements(elems, packages, done, latest, isLegacyProject)
    ensures elements' == RewriteElements(elems, packages, done + {packageInfo.id}, latest, isLegacyProject)
  {
    var isLatestPackage := latest[packageInfo.id] == packageInfo;
    RewriteStep(elems, packages, done, packageInfo.id, latest, isLegacyProject);
    RewriteKeepsQueries(elems, packages, done, latest, isLegacyProject, packageInfo.id);
    var packageReferenceElement := FirstMatch(elements, PackageReferenceTag, packageInfo.id);
    elements' := elements;
    if packageReferenceElement.Some? {
      var i := packageReferenceElement.value;
      elements' := elements[i := Rewritten(elements[i], packageInfo, isLatestPackage, isLegacyProject)];
    }
  }

  /**
   * After the rewrite, the element each package's query selects has no
   * Version; it carries a VersionOverride with the package's version when
   * that version is not the table's, and otherwise its override attribute
   * is as it was.
   */
  lemma RewrittenReferences(doc: ProjectDoc, packages: PackageMap, latest: PackageMap)
    requires packages.Keys <= latest.Keys
    ensures var after := RewriteDoc(doc, packages, latest).elements;
      var override := AttrName(VersionOverrideAttr, doc.legacy);
      forall id :: id in packages && FirstMatchElement(after, PackageReferenceTag, id).Some? ==>
        var e := FirstMatchElement(after, PackageReferenceTag, id).value;
        var original := FirstMatchElement(doc.elements, PackageReferenceTag, id);
        && Attribute(e, VersionAttr).None?
        && original.Some?
        && (latest[id] != packages[id] ==> override in e.attrs && e.attrs[override] == packages[id].version)
        && (latest[id] == packages[id] ==> (override in e.attrs <==> override in original.value.attrs))
  {
    var after := RewriteDoc(doc, packages, latest).elements;
    forall id | id in packages && FirstMatchElement(after, PackageReferenceTag, id).Some?
      ensures var e := FirstMatchElement(after, PackageReferenceTag, id).value;
        var original := FirstMatchElement(doc.elements, PackageReferenceTag, id);
        && Attribute(e, VersionAttr).None?
        && original.Some?
        && (latest[id] != packages[id] ==>
              AttrName(VersionOverrideAttr, doc.legacy) in e.attrs && e.attrs[AttrName(VersionOverrideAttr, doc.legacy)] == packages[id].version)
        && (latest[id] == packages[id] ==>
              (AttrName(VersionOverrideAttr, doc.legacy) in e.attrs <==> AttrName(VersionOverrideAttr, doc.legacy) in original.value.attrs))
    {
      RewriteKeepsQueries(doc.elements, packages, packages.Keys, latest, doc.legacy, id);
      var i := FirstMatch(doc.elements, PackageReferenceTag, id).value;
      RewrittenAttributes(doc.elements[i], packages[id], latest[id] == packages[id], doc.legacy);
    }
  }

  /**
   * Every element other than the first PackageReference of one of the
   * project's packages is left as it was, so a package without such an
   * element changes nothing.
   */
  lemma RewriteOnlySelected(doc: ProjectDoc, packages: PackageMap, latest: PackageMap)
    requires packages.Keys <= latest.Keys
    ensures var after := RewriteDoc(doc, packages, latest).elements;
      forall i :: 0 <= i < |after| && (forall id :: id in packages ==> FirstMatch(doc.elements, PackageReferenceTag, id) != Some(i)) ==>
        after[i] == doc.elements[i]
  {
    var elems := doc.elements;
    var after := RewriteDoc(doc, packages, latest).elements;
    forall i | 0 <= i < |after| && (forall id :: id in packages ==> FirstMatch(elems, PackageReferenceTag, id) != Some(i))
      ensures after[i] == elems[i]
    {
      if Attribute(elems[i], IncludeAttr).Some? {
        var id := Attribute(elems[i], IncludeAttr).value;
        assert id in packages ==> FirstMatch(elems, PackageReferenceTag, id) != Some(i);
      }
    }
  }

  /**
   * Every kept reference (Version present and non-empty, Include present) is
   * the first PackageReference with its Include. Without this, an earlier
   * reference without a Version shadows it: the query selects the earlier
   * one, and the versioned one keeps its Version.
   */
  predicate NoShadowedReference(elems: seq<Element>)
  {
    forall i :: 0 <= i < |elems| && elems[i].name == PackageReferenceTag && ReadReference(elems[i]).Some? ==>
      FirstMatch(elems, PackageReferenceTag, ReadReference(elems[i]).value.id) == Some(i)
  }

  /** References the parser skips leave the map as it is. */
  lemma {:induction false} ParseReferencesAllSkipped(refs: seq<Element>, path: string, bag: Option<PropertyBag>, acc: PackageMap)
    requires forall e :: e in refs ==> ReadReference(e).None?
    ensures ParseReferences(refs, path, bag, acc) == Success(acc)
    decreases |refs|
  {
    if refs != [] {
      assert refs[0] in refs;
      assert forall e :: e in refs[1..] ==> e in refs;
      ParseReferencesAllSkipped(refs[1..], path, bag, acc);
    }
  }

  /**
   * Once a project that parsed cleanly, without shadowed references, has
   * been rewritten, parsing it again finds no package: no PackageReference
   * has a Version any more.
   */
  lemma SecondParseFindsNothing(path: string, doc: ProjectDoc, build: DesignTimeBuild, latest: PackageMap)
    requires ParseProject(path, doc, build).Success?
    requires ParseProject(path, doc, build).value.Keys <= latest.Keys
    requires NoShadowedReference(doc.elements)
    ensures var packages := ParseProject(path, doc, build).value;
      ParseProject(path, RewriteDoc(doc, packages, latest), build) == Success(map[])
  {
    var packages := ParseProject(path, doc, build).value;
    var elems := doc.elements;
    ParseProjectSpec(path, doc, build);
    forall i | 0 <= i < |elems| && elems[i].name == PackageReferenceTag && ReadReference(elems[i]).Some?
      ensures ReadReference(elems[i]).value.id in packages
    {
      assert elems[i] in PackageReferences(elems);
      assert Kept(PackageReferences(elems), ReadReference(elems[i]).value.id);
    }
    var after := RewriteDoc(doc, packages, latest).elements;
    NoVersionAfterRewrite(elems, packages, latest, doc.legacy);
    ParseReferencesAllSkipped(PackageReferences(after), path, build(path), map[]);
  }

  /**
   * When every kept reference is the selected element of a package of the
   * project, no PackageReference is kept after the rewrite.
   */
  lemma NoVersionAfterRewrite(elems: seq<Element>, packages: PackageMap, latest: PackageMap, legacy: bool)
    requires packages.Keys <= latest.Keys
    requires forall i :: 0 <= i < |elems| && elems[i].name == PackageReferenceTag && ReadReference(elems[i]).Some? ==>
      ReadReference(elems[i]).value.id in packages && FirstMatch(elems, PackageReferenceTag, ReadReference(elems[i]).value.id) == Some(i)
    ensures forall e :: e in PackageReferences(RewriteElements(elems, packages, packages.Keys, latest, legacy)) ==> ReadReference(e).None?
  {
    var after := RewriteElements(elems, packages, packages.Keys, latest, legacy);
    forall e | e in PackageReferences(after) ensures ReadReference(e).None? {
      var i :| 0 <= i < |after| && after[i] == e;
      if ReadReference(elems[i]).Some? {
        var id := ReadReference(elems[i]).value.id;
        RewrittenAttributes(elems[i], packages[id], latest[id] == packages[id], legacy);
      }
    }
  }

  /**
   * UpdateProjectFiles: each project with packages, in turn, is rewritten
   * and saved. A package missing from the table aborts the run; the
   * projects before it have already been saved.
   */
  method UpdateProjectFiles(packageInfoByProject: seq<ParsedProject>, latest: PackageMap)
    returns (saved: seq<SavedFile>, r: Result<(), MigrationError>)
    ensures |saved| <= |packageInfoByProject|
    ensures forall i :: 0 <= i < |saved| ==>
      var project := packageInfoByProject[i];
      && project.packages.Keys <= latest.Keys
      && saved[i] == SavedFile(project.file.path, RewriteDoc(project.file.doc, project.packages, latest))
    ensures r.Success? <==> |saved| == |packageInfoByProject|
    ensures r.Failure? ==>
      && !(packageInfoByProject[|saved|].packages.Keys <= latest.Keys)
      && r.error.MissingLatest? && r.error.id in packageInfoByProject[|saved|].packages
  {
    saved := [];
    for n := 0 to |packageInfoByProject|
      invariant |saved| == n
      invariant forall i :: 0 <= i < n ==>
        var project := packageInfoByProject[i];
        && project.packages.Keys <= latest.Keys
        && saved[i] == SavedFile(project.file.path, RewriteDoc(project.file.doc, project.packages, latest))
    {
      var projectWithPackages := packageInfoByProject[n];
      var projectDoc := RewriteProject(projectWithPackages.file.doc, projectWithPackages.packages, latest);
      if projectDoc.Failure? {
        return saved, Failure(projectDoc.error);
      }
      saved := saved + [SavedFile(projectWithPackages.file.path, projectDoc.value)];
    }
    return saved, Success(());
  }
}
