/**
 * Abstract model of the XML documents the migrator reads and edits.
 * A document is the sequence of its elements in document order; an element
 * has a name and its attributes. Whitespace, nesting other than what the
 * manifest needs, and serialisation are not modelled.
 */
module Xml {
  import opened Wrappers

  const PackageReferenceTag := "PackageReference"
  const PackageVersionTag := "PackageVersion"
  const IncludeAttr := "Include"
  const VersionAttr := "Version"
  const VersionOverrideAttr := "VersionOverride"

  /**
   * An attribute name: its local name and whether it lives in the MSBuild
   * XML namespace. Attributes read from a file are never namespace-qualified;
   * only a VersionOverride created in a legacy-namespace project is.
   */
  datatype AttrName = AttrName(local: string, msbuildNamespace: bool)

  datatype Element = Element(name: string, attrs: map<AttrName, string>)

  /** A project file: whether it declares the legacy MSBuild default namespace, and its elements. */
  datatype ProjectDoc = ProjectDoc(legacy: bool, elements: seq<Element>)

  /** A project file found by the search (`FileInfo`): its path, its DirectoryName (which may be null) and its XML. */
  datatype ProjectFile = ProjectFile(path: string, directoryName: Option<string>, doc: ProjectDoc)

  /** `element.Attributes?[local]?.Value` for an attribute without namespace. */
  function Attribute(e: Element, local: string): Option<string>
  {
    if AttrName(local, false) in e.attrs then Some(e.attrs[AttrName(local, false)]) else None
  }

  function SetAttribute(e: Element, name: AttrName, value: string): Element
  {
    e.(attrs := e.attrs[name := value])
  }

  function RemoveAttribute(e: Element, name: AttrName): Element
  {
    e.(attrs := e.attrs - {name})
  }

  /** The element `//tag[@Include='id']` selects. */
  predicate IsElementFor(e: Element, tag: string, id: string)
  {
    e.name == tag && Attribute(e, IncludeAttr) == Some(id)
  }

  /** `SelectSingleNode("//tag[@Include='id']")`: index of the first match in document order. */
  function FirstMatch(elems: seq<Element>, tag: string, id: string): (r: Option<nat>)
    ensures r.Some? ==> r.value < |elems| && IsElementFor(elems[r.value], tag, id)
    ensures r.Some? ==> forall j :: 0 <= j < r.value ==> !IsElementFor(elems[j], tag, id)
    ensures r.None? ==> forall j :: 0 <= j < |elems| ==> !IsElementFor(elems[j], tag, id)
  {
    FirstMatchFrom(elems, tag, id, 0)
  }

  function FirstMatchFrom(elems: seq<Element>, tag: string, id: string, from: nat): (r: Option<nat>)
    requires from <= |elems|
    ensures r.Some? ==> from <= r.value < |elems| && IsElementFor(elems[r.value], tag, id)
    ensures r.Some? ==> forall j :: from <= j < r.value ==> !IsElementFor(elems[j], tag, id)
    ensures r.None? ==> forall j :: from <= j < |elems| ==> !IsElementFor(elems[j], tag, id)
    decreases |elems| - from
  {
    if from == |elems| then None
    else if IsElementFor(elems[from], tag, id) then Some(from)
    else FirstMatchFrom(elems, tag, id, from + 1)
  }

  /** The element FirstMatch selects, if any. */
  function FirstMatchElement(elems: seq<Element>, tag: string, id: string): (r: Option<Element>)
    ensures r.Some? ==> r.value in elems && IsElementFor(r.value, tag, id)
    ensures r.None? ==> forall e :: e in elems ==> !IsElementFor(e, tag, id)
  {
    match FirstMatch(elems, tag, id)
    case Some(i) => Some(elems[i])
    case None => None
  }

  /** FirstMatch is determined by its contract. */
  lemma FirstMatchIs(elems: seq<Element>, tag: string, id: string, r: Option<nat>)
    requires r.Some? ==> r.value < |elems| && IsElementFor(elems[r.value], tag, id)
    requires r.Some? ==> forall j :: 0 <= j < r.value ==> !IsElementFor(elems[j], tag, id)
    requires r.None? ==> forall j :: 0 <= j < |elems| ==> !IsElementFor(elems[j], tag, id)
    ensures FirstMatch(elems, tag, id) == r
  {
  }

  /**
   * Two documents whose elements agree position by position on name and
   * Include select the same element for every query.
   */
  lemma FirstMatchSameKeys(a: seq<Element>, b: seq<Element>, tag: string, id: string)
    requires |a| == |b|
    requires forall i :: 0 <= i < |a| ==> a[i].name == b[i].name && Attribute(a[i], IncludeAttr) == Attribute(b[i], IncludeAttr)
    ensures FirstMatch(a, tag, id) == FirstMatch(b, tag, id)
  {
    assert forall i :: 0 <= i < |a| ==> (IsElementFor(a[i], tag, id) <==> IsElementFor(b[i], tag, id));
    FirstMatchIs(b, tag, id, FirstMatch(a, tag, id));
  }

  /** Inserting an element that does not match keeps the first match (shifted past the insertion point). */
  lemma FirstMatchInsert(s: seq<Element>, k: nat, x: Element, tag: string, id: string)
    requires k <= |s|
    requires !IsElementFor(x, tag, id)
    ensures FirstMatchElement(s[..k] + [x] + s[k..], tag, id) == FirstMatchElement(s, tag, id)
  {
    var t := s[..k] + [x] + s[k..];
    assert forall j :: 0 <= j < k ==> t[j] == s[j];
    assert forall j :: k < j < |t| ==> t[j] == s[j - 1];
    match FirstMatch(s, tag, id)
    case None =>
      FirstMatchIs(t, tag, id, None);
    case Some(i) =>
      var i' := if i < k then i else i + 1;
      FirstMatchIs(t, tag, id, Some(i'));
  }

  /** Replacing an element by one that agrees with it on the query keeps the first match. */
  lemma FirstMatchUpdate(s: seq<Element>, i: nat, x: Element, tag: string, id: string)
    requires i < |s|
    requires IsElementFor(x, tag, id) == IsElementFor(s[i], tag, id)
    ensures FirstMatch(s[i := x], tag, id) == FirstMatch(s, tag, id)
  {
    FirstMatchIs(s[i := x], tag, id, FirstMatch(s, tag, id));
  }
}
