/**
 * UpdateDirectoryPackagesProps: writing the table of latest versions into
 * Directory.Packages.props. Each package's PackageVersion entry is updated
 * when its Version differs (ignoring case), or created at the end of the
 * first ItemGroup when there is none; the file is saved only if something
 * was edited.
 */
module ManifestWriter {
  import opened Wrappers
  import opened Xml
  import opened Packages

  /**
   * Directory.Packages.props: its elements in document order, and the index
   * just past the last child of its first ItemGroup, where new entries are
   * appended (None when the file has no ItemGroup).
   */
  datatype ManifestDoc = ManifestDoc(elements: seq<Element>, itemGroupEnd: Option<nat>)

  type Manifest = d: ManifestDoc | d.itemGroupEnd.Some? ==> d.itemGroupEnd.value <= |d.elements|
    witness ManifestDoc([], None)

  /** `<PackageVersion Include="id" Version="version" />`. */
  function NewPackageVersion(p: PackageInfo): (e: Element)
    ensures IsElementFor(e, PackageVersionTag, p.id) && Attribute(e, VersionAttr) == Some(p.version)
  {
    Element(PackageVersionTag, map[AttrName(IncludeAttr, false) := p.id, AttrName(VersionAttr, false) := p.version])
  }

  /**
   * The entry for p must be written: it is missing, or its Version is
   * present and differs from p's ignoring case. An entry without a Version
   * is left alone.
   */
  predicate NeedsEdit(existing: Option<Element>, p: PackageInfo)
  {
    || existing.None?
    || (Attribute(existing.value, VersionAttr).Some? && !EqualsIgnoreCase(Attribute(existing.value, VersionAttr).value, p.version))
  }

  /** The entry for p once it has been written. */
  function Upserted(existing: Option<Element>, p: PackageInfo): Element
  {
    match existing
    case None => NewPackageVersion(p)
    case Some(e) => if NeedsEdit(existing, p) then SetAttribute(e, AttrName(VersionAttr, false), p.version) else e
  }

  /** One iteration of the loop over the table: the new document, and whether it was edited. */
  function Upsert(doc: Manifest, p: PackageInfo): (r: (Manifest, bool))
    requires doc.itemGroupEnd.Some?
    ensures r.0.itemGroupEnd.Some?
  {
    match FirstMatch(doc.elements, PackageVersionTag, p.id)
    case Some(i) =>
      if NeedsEdit(Some(doc.elements[i]), p) then
        (doc.(elements := doc.elements[i := Upserted(Some(doc.elements[i]), p)]), true)
      else (doc, false)
    case None =>
      var k := doc.itemGroupEnd.value;
      (ManifestDoc(doc.elements[..k] + [NewPackageVersion(p)] + doc.elements[k..], Some(k + 1)), true)
  }

  /** The packages, in enumeration order, written into the document; edited if any step edited. */
  function UpsertAll(doc: Manifest, packages: seq<PackageInfo>): (r: (Manifest, bool))
    requires doc.itemGroupEnd.Some?
    ensures r.0.itemGroupEnd.Some?
    decreases |packages|
  {
    if packages == [] then (doc, false)
    else
      var before := UpsertAll(doc, packages[..|packages| - 1]);
      var step := Upsert(before.0, packages[|packages| - 1]);
      (step.0, before.1 || step.1)
  }

  /**
   * The method: a manifest without an ItemGroup is an error (whatever the
   * table holds); otherwise the document to save, or None when nothing was
   * edited and the file is left as it is.
   */
  method UpdateDirectoryPackagesProps(manifest: Manifest, latestPackages: seq<PackageInfo>)
    returns (r: Result<Option<Manifest>, MigrationError>)
    ensures r.Failure? <==> manifest.itemGroupEnd.None?
    ensures r.Failure? ==> r.error == MissingItemGroup
    ensures r.Success? ==>
      r.value == if UpsertAll(manifest, latestPackages).1 then Some(UpsertAll(manifest, latestPackages).0) else None
  {
    if manifest.itemGroupEnd.None? {
      return Failure(MissingItemGroup);
    }
    var document := manifest;
    var editedDirectoryPackagesProps := false;
    for n := 0 to |latestPackages|
      invariant document.itemGroupEnd.Some?
      invariant (document, editedDirectoryPackagesProps) == UpsertAll(manifest, latestPackages[..n])
    {
      var packageInfo := latestPackages[n];
      ghost var step := Upsert(document, packageInfo);
      ghost var editedBefore := editedDirectoryPackagesProps;
      assert latestPackages[..n + 1][..n] == latestPackages[..n];
      assert UpsertAll(manifest, latestPackages[..n + 1]) == (step.0, editedBefore || step.1);
      var existingEntry := FirstMatch(document.elements, PackageVersionTag, packageInfo.id);
      match existingEntry {
        case Some(i) =>
          var version := Attribute(document.elements[i], VersionAttr);
          if version.Some? && !EqualsIgnoreCase(version.value, packageInfo.version) {
            editedDirectoryPackagesProps := true;
            var updated := SetAttribute(document.elements[i], AttrName(VersionAttr, false), packageInfo.version);
            document := document.(elements := document.elements[i := updated]);
          }
        case None =>
          var firstItemGroupEnd := document.itemGroupEnd.value;
          var newPackageXmlNode := NewPackageVersion(packageInfo);
          document := ManifestDoc(document.elements[..firstItemGroupEnd] + [newPackageXmlNode] + document.elements[firstItemGroupEnd..],
                                  Some(firstItemGroupEnd + 1));
          editedDirectoryPackagesProps := true;
      }
      assert (document, editedDirectoryPackagesProps) == (step.0, editedBefore || step.1);
    }
    assert latestPackages[..|latestPackages|] == latestPackages;
    if editedDirectoryPackagesProps {
      return Success(Some(document));
    }
    return Success(None);
  }

  /** Some package of the sequence has this id. */
  predicate HasId(packages: seq<PackageInfo>, id: string)
  {
    exists i :: 0 <= i < |packages| && packages[i].id == id
  }

  predicate DistinctIds(packages: seq<PackageInfo>)
  {
    forall i, j :: 0 <= i < j < |packages| ==> packages[i].id != packages[j].id
  }

  /** A written entry still answers the query for its id, and needs no further edit. */
  lemma UpsertedSettles(existing: Option<Element>, p: PackageInfo)
    requires existing.Some? ==> IsElementFor(existing.value, PackageVersionTag, p.id)
    ensures IsElementFor(Upserted(existing, p), PackageVersionTag, p.id)
    ensures !NeedsEdit(Some(Upserted(existing, p)), p)
    ensures Attribute(Upserted(existing, p), VersionAttr).None? <==>
      existing.Some? && Attribute(existing.value, VersionAttr).None?
  {
    EqualsIgnoreCaseEquivalence(p.version, p.version, p.version);
  }

  /**
   * One step of the loop writes p's entry and leaves the entry every other
   * id selects as it was; it edits exactly when p's entry needed it.
   */
  lemma UpsertStep(doc: Manifest, p: PackageInfo, id: string)
    requires doc.itemGroupEnd.Some?
    ensures Upsert(doc, p).1 == NeedsEdit(FirstMatchElement(doc.elements, PackageVersionTag, p.id), p)
    ensures FirstMatchElement(Upsert(doc, p).0.elements, PackageVersionTag, id) ==
      if id == p.id then Some(Upserted(FirstMatchElement(doc.elements, PackageVersionTag, p.id), p))
      else FirstMatchElement(doc.elements, PackageVersionTag, id)
  {
    var s := doc.elements;
    var s' := Upsert(doc, p).0.elements;
    match FirstMatch(s, PackageVersionTag, p.id)
    case Some(i) =>
      if NeedsEdit(Some(s[i]), p) {
        var x := Upserted(Some(s[i]), p);
        assert s' == s[i := x];
        assert Attribute(x, IncludeAttr) == Attribute(s[i], IncludeAttr);
        FirstMatchUpdate(s, i, x, PackageVersionTag, id);
        FirstMatchUpdate(s, i, x, PackageVersionTag, p.id);
      }
    case None =>
      var k := doc.itemGroupEnd.value;
      var x := NewPackageVersion(p);
      assert s' == s[..k] + [x] + s[k..];
      if id == p.id {
        assert forall j :: 0 <= j < k ==> s'[j] == s[j];
        FirstMatchIs(s', PackageVersionTag, p.id, Some(k));
      } else {
        FirstMatchInsert(s, k, x, PackageVersionTag, id);
      }
  }

  /** The loop leaves the entry selected by an id outside the table as it was. */
  lemma {:induction false} UpsertAllOthers(doc: Manifest, packages: seq<PackageInfo>, id: string)
    requires doc.itemGroupEnd.Some? && !HasId(packages, id)
    ensures FirstMatchElement(UpsertAll(doc, packages).0.elements, PackageVersionTag, id) ==
      FirstMatchElement(doc.elements, PackageVersionTag, id)
    decreases |packages|
  {
    if packages != [] {
      var n := |packages| - 1;
      var prefix := packages[..n];
      assert forall i :: 0 <= i < n ==> prefix[i] == packages[i];
      assert !HasId(prefix, id);
      UpsertAllOthers(doc, prefix, id);
      UpsertStep(UpsertAll(doc, prefix).0, packages[n], id);
    }
  }

  /** After the loop over packages with distinct ids, package i's entry is its written form. */
  lemma {:induction false} UpsertAllEntry(doc: Manifest, packages: seq<PackageInfo>, i: nat)
    requires doc.itemGroupEnd.Some? && DistinctIds(packages) && i < |packages|
    ensures FirstMatchElement(UpsertAll(doc, packages).0.elements, PackageVersionTag, packages[i].id) ==
      Some(Upserted(FirstMatchElement(doc.elements, PackageVersionTag, packages[i].id), packages[i]))
    decreases |packages|
  {
    var n := |packages| - 1;
    var prefix := packages[..n];
    var p := packages[n];
    UpsertStep(UpsertAll(doc, prefix).0, p, packages[i].id);
    if i == n {
      assert !HasId(prefix, p.id);
      UpsertAllOthers(doc, prefix, p.id);
    } else {
      assert prefix[i] == packages[i];
      assert DistinctIds(prefix);
      UpsertAllEntry(doc, prefix, i);
    }
  }

  /** After the loop over packages with distinct ids, every package's entry is its written form. */
  lemma UpsertAllEntries(doc: Manifest, packages: seq<PackageInfo>)
    requires doc.itemGroupEnd.Some? && DistinctIds(packages)
    ensures var after := UpsertAll(doc, packages).0.elements;
      forall i :: 0 <= i < |packages| ==>
        FirstMatchElement(after, PackageVersionTag, packages[i].id) ==
        Some(Upserted(FirstMatchElement(doc.elements, PackageVersionTag, packages[i].id), packages[i]))
  {
    forall i | 0 <= i < |packages|
      ensures FirstMatchElement(UpsertAll(doc, packages).0.elements, PackageVersionTag, packages[i].id) ==
        Some(Upserted(FirstMatchElement(doc.elements, PackageVersionTag, packages[i].id), packages[i]))
    {
      UpsertAllEntry(doc, packages, i);
    }
  }

  /** Some package's entry in elems needs an edit. */
  predicate AnyNeedsEdit(elems: seq<Element>, packages: seq<PackageInfo>)
  {
    exists i :: 0 <= i < |packages| && NeedsEdit(FirstMatchElement(elems, PackageVersionTag, packages[i].id), packages[i])
  }

  lemma AnyNeedsEditSnoc(elems: seq<Element>, packages: seq<PackageInfo>)
    requires packages != []
    ensures var n := |packages| - 1;
      AnyNeedsEdit(elems, packages) <==>
      AnyNeedsEdit(elems, packages[..n]) || NeedsEdit(FirstMatchElement(elems, PackageVersionTag, packages[n].id), packages[n])
  {
    var n := |packages| - 1;
    assert forall i :: 0 <= i < n ==> packages[..n][i] == packages[i];
  }

  /** The loop edits the document exactly when some package's entry needed an edit in the original document. */
  lemma {:induction false} UpsertAllEdited(doc: Manifest, packages: seq<PackageInfo>)
    requires doc.itemGroupEnd.Some? && DistinctIds(packages)
    ensures UpsertAll(doc, packages).1 <==> AnyNeedsEdit(doc.elements, packages)
    decreases |packages|
  {
    if packages != [] {
      var n := |packages| - 1;
      var prefix := packages[..n];
      var p := packages[n];
      assert forall i :: 0 <= i < n ==> prefix[i] == packages[i];
      assert !HasId(prefix, p.id);
      UpsertAllEdited(doc, prefix);
      UpsertAllOthers(doc, prefix, p.id);
      UpsertStep(UpsertAll(doc, prefix).0, p, p.id);
      AnyNeedsEditSnoc(doc.elements, packages);
    }
  }

  /**
   * Every package's entry ends up with its version (equal ignoring case),
   * except an existing entry without a Version attribute, which stays without one.
   */
  lemma UpsertAllVersions(doc: Manifest, packages: seq<PackageInfo>)
    requires doc.itemGroupEnd.Some? && DistinctIds(packages)
    ensures var after := UpsertAll(doc, packages).0.elements;
      forall i :: 0 <= i < |packages| ==>
        var entry := FirstMatchElement(after, PackageVersionTag, packages[i].id);
        var before := FirstMatchElement(doc.elements, PackageVersionTag, packages[i].id);
        && entry.Some?
        && (Attribute(entry.value, VersionAttr).None? <==> before.Some? && Attribute(before.value, VersionAttr).None?)
        && (Attribute(entry.value, VersionAttr).Some? ==> EqualsIgnoreCase(Attribute(entry.value, VersionAttr).value, packages[i].version))
        && (before.None? ==> Attribute(entry.value, VersionAttr) == Some(packages[i].version))
  {
    UpsertAllEntries(doc, packages);
    forall i | 0 <= i < |packages| {
      UpsertedSettles(FirstMatchElement(doc.elements, PackageVersionTag, packages[i].id), packages[i]);
    }
  }

  /** A second run over the written document with the same table edits nothing, so nothing is saved. */
  lemma UpsertAllIdempotent(doc: Manifest, packages: seq<PackageInfo>)
    requires doc.itemGroupEnd.Some? && DistinctIds(packages)
    ensures !UpsertAll(UpsertAll(doc, packages).0, packages).1
  {
    var after := UpsertAll(doc, packages).0;
    UpsertAllEntries(doc, packages);
    UpsertAllEdited(after, packages);
    forall i | 0 <= i < |packages|
      ensures !NeedsEdit(FirstMatchElement(after.elements, PackageVersionTag, packages[i].id), packages[i])
    {
      UpsertedSettles(FirstMatchElement(doc.elements, PackageVersionTag, packages[i].id), packages[i]);
    }
  }

  /*
   * The whole document after the loop
   */

  /** The packages without an entry in elems, in enumeration order: the ones the loop appends. */
  function MissingEntries(elems: seq<Element>, packages: seq<PackageInfo>): (added: seq<PackageInfo>)
    ensures |added| <= |packages|
    ensures forall q :: q in added <==> q in packages && FirstMatch(elems, PackageVersionTag, q.id).None?
    decreases |packages|
  {
    if packages == [] then []
    else
      var n := |packages| - 1;
      assert forall q :: q in packages <==> q in packages[..n] || q == packages[n];
      MissingEntries(elems, packages[..n]) + (if FirstMatch(elems, PackageVersionTag, packages[n].id).None? then [packages[n]] else [])
  }

  /** The last package whose query selects position j of elems, if any. */
  function SelectingPackage(elems: seq<Element>, packages: seq<PackageInfo>, j: nat): Option<PackageInfo>
    decreases |packages|
  {
    if packages == [] then None
    else
      var n := |packages| - 1;
      if FirstMatch(elems, PackageVersionTag, packages[n].id) == Some(j) then Some(packages[n])
      else SelectingPackage(elems, packages[..n], j)
  }

  /** Position j of elems holds the entry that the query of some package selects. */
  predicate SelectedEntry(elems: seq<Element>, packages: seq<PackageInfo>, j: nat)
  {
    SelectingPackage(elems, packages, j).Some?
  }

  /** SelectedEntry holds exactly when the query of one of the packages selects position j. */
  lemma {:induction false} SelectedEntryMeaning(elems: seq<Element>, packages: seq<PackageInfo>, j: nat)
    ensures SelectedEntry(elems, packages, j) <==>
      exists i :: 0 <= i < |packages| && FirstMatch(elems, PackageVersionTag, packages[i].id) == Some(j)
    decreases |packages|
  {
    if packages != [] {
      var n := |packages| - 1;
      var prefix := packages[..n];
      assert forall i :: 0 <= i < n ==> prefix[i] == packages[i];
      SelectedEntryMeaning(elems, prefix, j);
      if SelectedEntry(elems, prefix, j) && FirstMatch(elems, PackageVersionTag, packages[n].id) != Some(j) {
        var i :| 0 <= i < n && FirstMatch(elems, PackageVersionTag, prefix[i].id) == Some(j);
        assert FirstMatch(elems, PackageVersionTag, packages[i].id) == Some(j);
      }
    }
  }

  /** What the element at position j of elems becomes: its written form if a package selects it, else itself. */
  function WrittenAt(elems: seq<Element>, packages: seq<PackageInfo>, j: nat): Element
    requires j < |elems|
  {
    match SelectingPackage(elems, packages, j)
    case Some(q) => Upserted(Some(elems[j]), q)
    case None => elems[j]
  }

  /** Where position j of the original document is once m entries have been inserted at k. */
  function Shifted(j: nat, k: nat, m: nat): nat
  {
    if j < k then j else j + m
  }

  /**
   * after is before with every element in its written form and an entry
   * for each package without one inserted at k, in order.
   */
  predicate Describes(before: seq<Element>, k: nat, packages: seq<PackageInfo>, after: Manifest)
  {
    var added := MissingEntries(before, packages);
    && k <= |before|
    && after.itemGroupEnd == Some(k + |added|)
    && |after.elements| == |before| + |added|
    && (forall j :: 0 <= j < |before| ==> after.elements[Shifted(j, k, |added|)] == WrittenAt(before, packages, j))
    && (forall j :: 0 <= j < |added| ==> after.elements[k + j] == NewPackageVersion(added[j]))
  }

  /** Writing an entry keeps its name and its Include. */
  lemma WrittenAtKeepsKey(elems: seq<Element>, packages: seq<PackageInfo>, j: nat)
    requires j < |elems|
    ensures WrittenAt(elems, packages, j).name == elems[j].name
    ensures Attribute(WrittenAt(elems, packages, j), IncludeAttr) == Attribute(elems[j], IncludeAttr)
  {
    assert AttrName(IncludeAttr, false) != AttrName(VersionAttr, false);
  }

  /** Under distinct ids, the entry a package's query selects becomes that package's written entry. */
  lemma {:induction false} WrittenAtMeaning(elems: seq<Element>, packages: seq<PackageInfo>, j: nat)
    requires j < |elems| && DistinctIds(packages)
    ensures forall i :: 0 <= i < |packages| && FirstMatch(elems, PackageVersionTag, packages[i].id) == Some(j) ==>
      WrittenAt(elems, packages, j) == Upserted(Some(elems[j]), packages[i])
    decreases |packages|
  {
    if packages != [] {
      var n := |packages| - 1;
      var prefix := packages[..n];
      assert forall i :: 0 <= i < n ==> prefix[i] == packages[i];
      assert DistinctIds(prefix);
      WrittenAtMeaning(elems, prefix, j);
    }
  }

  /** In a described document, the query for an id outside the table selects the shifted original entry. */
  lemma DescribedMatch(before: seq<Element>, k: nat, packages: seq<PackageInfo>, after: Manifest, id: string)
    requires Describes(before, k, packages, after) && !HasId(packages, id)
    ensures var m := |MissingEntries(before, packages)|;
      FirstMatch(after.elements, PackageVersionTag, id) ==
        match FirstMatch(before, PackageVersionTag, id)
        case Some(j) => Some(Shifted(j, k, m))
        case None => None
  {
    var added := MissingEntries(before, packages);
    var m := |added|;
    var a := after.elements;
    forall x | 0 <= x < |a|
      ensures IsElementFor(a[x], PackageVersionTag, id) ==>
        !(k <= x < k + m) && IsElementFor(before[if x < k then x else x - m], PackageVersionTag, id)
    {
      if k <= x < k + m {
        assert a[x] == NewPackageVersion(added[x - k]);
        assert added[x - k] in packages;
      } else {
        var j := if x < k then x else x - m;
        assert Shifted(j, k, m) == x;
        WrittenAtKeepsKey(before, packages, j);
      }
    }
    match FirstMatch(before, PackageVersionTag, id)
    case Some(j0) =>
      WrittenAtKeepsKey(before, packages, j0);
      assert IsElementFor(a[Shifted(j0, k, m)], PackageVersionTag, id);
      FirstMatchIs(a, PackageVersionTag, id, Some(Shifted(j0, k, m)));
    case None =>
      FirstMatchIs(a, PackageVersionTag, id, None);
  }

  /** One more package: only the position its query selects is written differently. */
  lemma WrittenAtSnoc(elems: seq<Element>, packages: seq<PackageInfo>, p: PackageInfo, j: nat)
    requires j < |elems|
    ensures WrittenAt(elems, packages + [p], j) ==
      if FirstMatch(elems, PackageVersionTag, p.id) == Some(j) then Upserted(Some(elems[j]), p)
      else WrittenAt(elems, packages, j)
  {
    assert (packages + [p])[..|packages|] == packages;
  }

  /** A position no package of the sequence selects is written as it is. */
  lemma {:induction false} WrittenAtUnselected(elems: seq<Element>, packages: seq<PackageInfo>, j: nat)
    requires j < |elems| && forall i :: 0 <= i < |packages| ==> FirstMatch(elems, PackageVersionTag, packages[i].id) != Some(j)
    ensures WrittenAt(elems, packages, j) == elems[j]
    decreases |packages|
  {
    if packages != [] {
      var n := |packages| - 1;
      assert forall i :: 0 <= i < n ==> packages[..n][i] == packages[i];
      WrittenAtUnselected(elems, packages[..n], j);
    }
  }

  /** One step of the loop for a package that has an entry. */
  lemma DescribesStepFound(before: seq<Element>, k: nat, packages: seq<PackageInfo>, p: PackageInfo, after: Manifest)
    requires Describes(before, k, packages, after) && !HasId(packages, p.id)
    requires FirstMatch(before, PackageVersionTag, p.id).Some?
    ensures Describes(before, k, packages + [p], Upsert(after, p).0)
  {
    var packages' := packages + [p];
    assert packages'[..|packages|] == packages;
    var added := MissingEntries(before, packages);
    assert MissingEntries(before, packages') == added;
    var m := |added|;
    var j0 := FirstMatch(before, PackageVersionTag, p.id).value;
    var s0 := Shifted(j0, k, m);
    DescribedMatch(before, k, packages, after, p.id);
    WrittenAtUnselected(before, packages, j0);
    var a := after.elements;
    var a' := a[s0 := Upserted(Some(before[j0]), p)];
    assert Upsert(after, p).0 == after.(elements := a');
    forall j | 0 <= j < |before|
      ensures a'[Shifted(j, k, m)] == WrittenAt(before, packages', j)
    {
      WrittenAtSnoc(before, packages, p, j);
    }
  }

  /** One step of the loop for a package without an entry. */
  lemma DescribesStepMissing(before: seq<Element>, k: nat, packages: seq<PackageInfo>, p: PackageInfo, after: Manifest)
    requires Describes(before, k, packages, after) && !HasId(packages, p.id)
    requires FirstMatch(before, PackageVersionTag, p.id).None?
    ensures Describes(before, k, packages + [p], Upsert(after, p).0)
  {
    var packages' := packages + [p];
    assert packages'[..|packages|] == packages;
    var added := MissingEntries(before, packages);
    var added' := added + [p];
    assert MissingEntries(before, packages') == added';
    var m := |added|;
    DescribedMatch(before, k, packages, after, p.id);
    var a := after.elements;
    var a' := a[..k + m] + [NewPackageVersion(p)] + a[k + m..];
    assert Upsert(after, p).0 == ManifestDoc(a', Some(k + m + 1));
    forall j | 0 <= j < |before|
      ensures a'[Shifted(j, k, m + 1)] == WrittenAt(before, packages', j)
    {
      WrittenAtSnoc(before, packages, p, j);
    }
    forall j | 0 <= j < m + 1
      ensures a'[k + j] == NewPackageVersion(added'[j])
    {
    }
  }

  /** The loop over packages with distinct ids produces the document Describes states. */
  lemma {:induction false} UpsertAllDescribes(doc: Manifest, packages: seq<PackageInfo>)
    requires doc.itemGroupEnd.Some? && DistinctIds(packages)
    ensures Describes(doc.elements, doc.itemGroupEnd.value, packages, UpsertAll(doc, packages).0)
    decreases |packages|
  {
    var k := doc.itemGroupEnd.value;
    if packages != [] {
      var n := |packages| - 1;
      var prefix := packages[..n];
      var p := packages[n];
      assert forall i :: 0 <= i < n ==> prefix[i] == packages[i];
      assert !HasId(prefix, p.id);
      assert packages == prefix + [p];
      UpsertAllDescribes(doc, prefix);
      if FirstMatch(doc.elements, PackageVersionTag, p.id).Some? {
        DescribesStepFound(doc.elements, k, prefix, p, UpsertAll(doc, prefix).0);
      } else {
        DescribesStepMissing(doc.elements, k, prefix, p, UpsertAll(doc, prefix).0);
      }
    }
  }

  /** The length, the new end of the first ItemGroup and the appended entries after the loop. */
  lemma UpsertAllShape(doc: Manifest, packages: seq<PackageInfo>)
    requires doc.itemGroupEnd.Some? && DistinctIds(packages)
    ensures var k := doc.itemGroupEnd.value;
      var added := MissingEntries(doc.elements, packages);
      var after := UpsertAll(doc, packages).0;
      && after.itemGroupEnd == Some(k + |added|)
      && |after.elements| == |doc.elements| + |added|
      && (forall j :: 0 <= j < |added| ==> after.elements[k + j] == NewPackageVersion(added[j]))
  {
    UpsertAllDescribes(doc, packages);
  }

  /** The loop adds one element per package without an entry. */
  lemma UpsertAllLength(doc: Manifest, packages: seq<PackageInfo>)
    requires doc.itemGroupEnd.Some? && DistinctIds(packages)
    ensures |UpsertAll(doc, packages).0.elements| == |doc.elements| + |MissingEntries(doc.elements, packages)|
  {
    UpsertAllDescribes(doc, packages);
  }

  /** After the loop, the element at original position j is in its written form, at its shifted position. */
  lemma UpsertAllAt(doc: Manifest, packages: seq<PackageInfo>, j: nat)
    requires doc.itemGroupEnd.Some? && DistinctIds(packages) && j < |doc.elements|
    ensures var m := |MissingEntries(doc.elements, packages)|;
      var after := UpsertAll(doc, packages).0;
      && |after.elements| == |doc.elements| + m
      && after.elements[Shifted(j, doc.itemGroupEnd.value, m)] == WrittenAt(doc.elements, packages, j)
  {
    UpsertAllDescribes(doc, packages);
  }

  /** The entry the query of package i selects is written as that package's entry. */
  lemma WrittenAtSelected(elems: seq<Element>, packages: seq<PackageInfo>, i: nat)
    requires DistinctIds(packages) && i < |packages| && FirstMatch(elems, PackageVersionTag, packages[i].id).Some?
    ensures var j := FirstMatch(elems, PackageVersionTag, packages[i].id).value;
      WrittenAt(elems, packages, j) == Upserted(Some(elems[j]), packages[i])
  {
    WrittenAtMeaning(elems, packages, FirstMatch(elems, PackageVersionTag, packages[i].id).value);
  }

  /**
   * The rest of the manifest is left alone: before the end of the first
   * ItemGroup every element that no package's query selects is unchanged;
   * the entries of the packages without one follow, in enumeration order;
   * after them come the remaining original elements, shifted by the
   * number of appended entries, again unchanged unless selected; and each
   * selected entry is replaced by its written form.
   */
  lemma UpsertAllFrame(doc: Manifest, packages: seq<PackageInfo>)
    requires doc.itemGroupEnd.Some? && DistinctIds(packages)
    ensures var k := doc.itemGroupEnd.value;
      var added := MissingEntries(doc.elements, packages);
      var after := UpsertAll(doc, packages).0;
      && after.itemGroupEnd == Some(k + |added|)
      && |after.elements| == |doc.elements| + |added|
      && (forall j :: 0 <= j < k && !SelectedEntry(doc.elements, packages, j) ==> after.elements[j] == doc.elements[j])
      && (forall j :: 0 <= j < |added| ==> after.elements[k + j] == NewPackageVersion(added[j]))
      && (forall j :: k <= j < |doc.elements| && !SelectedEntry(doc.elements, packages, j) ==>
            after.elements[j + |added|] == doc.elements[j])
      && (forall i :: 0 <= i < |packages| && FirstMatch(doc.elements, PackageVersionTag, packages[i].id).Some? ==>
            var j := FirstMatch(doc.elements, PackageVersionTag, packages[i].id).value;
            after.elements[Shifted(j, k, |added|)] == Upserted(Some(doc.elements[j]), packages[i]))
  {
    UpsertAllShape(doc, packages);
    UpsertAllKeepsUnselected(doc, packages);
    UpsertAllWritesSelected(doc, packages);
  }

  /** Every element no package's query selects keeps its value, at its shifted position. */
  lemma UpsertAllKeepsUnselected(doc: Manifest, packages: seq<PackageInfo>)
    requires doc.itemGroupEnd.Some? && DistinctIds(packages)
    ensures var k := doc.itemGroupEnd.value;
      var m := |MissingEntries(doc.elements, packages)|;
      var after := UpsertAll(doc, packages).0;
      && |after.elements| == |doc.elements| + m
      && (forall j :: 0 <= j < k && !SelectedEntry(doc.elements, packages, j) ==> after.elements[j] == doc.elements[j])
      && (forall j :: k <= j < |doc.elements| && !SelectedEntry(doc.elements, packages, j) ==>
            after.elements[j + m] == doc.elements[j])
  {
    var k := doc.itemGroupEnd.value;
    var m := |MissingEntries(doc.elements, packages)|;
    var after := UpsertAll(doc, packages).0;
    UpsertAllLength(doc, packages);
    forall j | 0 <= j < k && !SelectedEntry(doc.elements, packages, j)
      ensures after.elements[j] == doc.elements[j]
    {
      UpsertAllAt(doc, packages, j);
    }
    forall j | k <= j < |doc.elements| && !SelectedEntry(doc.elements, packages, j)
      ensures after.elements[j + m] == doc.elements[j]
    {
      UpsertAllAt(doc, packages, j);
    }
  }

  /** The entry each package's query selects is replaced by its written form, at its shifted position. */
  lemma UpsertAllWritesSelected(doc: Manifest, packages: seq<PackageInfo>)
    requires doc.itemGroupEnd.Some? && DistinctIds(packages)
    ensures var k := doc.itemGroupEnd.value;
      var m := |MissingEntries(doc.elements, packages)|;
      var after := UpsertAll(doc, packages).0;
      && |after.elements| == |doc.elements| + m
      && (forall i :: 0 <= i < |packages| && FirstMatch(doc.elements, PackageVersionTag, packages[i].id).Some? ==>
            var j := FirstMatch(doc.elements, PackageVersionTag, packages[i].id).value;
            after.elements[Shifted(j, k, m)] == Upserted(Some(doc.elements[j]), packages[i]))
  {
    var k := doc.itemGroupEnd.value;
    var m := |MissingEntries(doc.elements, packages)|;
    var after := UpsertAll(doc, packages).0;
    UpsertAllLength(doc, packages);
    forall i | 0 <= i < |packages| && FirstMatch(doc.elements, PackageVersionTag, packages[i].id).Some?
      ensures var j := FirstMatch(doc.elements, PackageVersionTag, packages[i].id).value;
        after.elements[Shifted(j, k, m)] == Upserted(Some(doc.elements[j]), packages[i])
    {
      UpsertAllAt(doc, packages, FirstMatch(doc.elements, PackageVersionTag, packages[i].id).value);
      WrittenAtSelected(doc.elements, packages, i);
    }
  }
}
