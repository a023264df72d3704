/**
 * Package information, the dictionaries keyed by package id, the abstract
 * version comparison, and the errors the migration can raise.
 */
module Packages {

  /** NuGetPackageInfo: a package id and its resolved version text, compared structurally. */
  datatype PackageInfo = PackageInfo(id: string, version: string)

  /** Every dictionary the migrator builds maps a package id to a PackageInfo with that id. */
  predicate KeyedById(m: map<string, PackageInfo>)
  {
    forall k :: k in m ==> m[k].id == k
  }

  type PackageMap = m: map<string, PackageInfo> | KeyedById(m) witness map[]

  /** Adding or replacing the entry of a package under its own id keeps a map keyed by id. */
  lemma KeyedByIdInsert(m: PackageMap, p: PackageInfo)
    ensures KeyedById(m[p.id := p])
  {
  }

  /** The entries of packages whose id is in ids. */
  function Restrict(packages: PackageMap, ids: set<string>): (r: PackageMap)
    ensures r.Keys == packages.Keys * ids
  {
    map k | k in packages.Keys * ids :: packages[k]
  }

  lemma RestrictAll(packages: PackageMap)
    ensures Restrict(packages, packages.Keys) == packages
  {
  }

  /** Restricting to one more id adds that id's entry. */
  lemma RestrictInsert(packages: PackageMap, ids: set<string>, id: string)
    requires id in packages
    ensures Restrict(packages, ids + {id}) == Restrict(packages, ids)[id := packages[id]]
  {
  }

  /** `NuGetPackageInfo.CompareTo`, whose definition is not part of this model. */
  type Comparer = (PackageInfo, PackageInfo) -> int

  /** `a.CompareTo(b) == 1`: a is a newer version than b. */
  predicate IsNewer(compareTo: Comparer, a: PackageInfo, b: PackageInfo)
  {
    compareTo(a, b) == 1
  }

  /** "Newer" is a strict partial order: irreflexive and transitive. */
  ghost predicate StrictOrder(compareTo: Comparer)
  {
    && (forall a :: !IsNewer(compareTo, a, a))
    && (forall a, b, c :: IsNewer(compareTo, a, b) && IsNewer(compareTo, b, c) ==> IsNewer(compareTo, a, c))
  }

  /**
   * "Newer" is a strict weak order, i.e. "not newer" is a total preorder:
   * additionally, if a is newer than c, every b is below a or above c.
   */
  ghost predicate StrictWeakOrder(compareTo: Comparer)
  {
    && StrictOrder(compareTo)
    && (forall a, b, c :: IsNewer(compareTo, a, c) ==> IsNewer(compareTo, a, b) || IsNewer(compareTo, b, c))
  }

  lemma NewerIrreflexive(compareTo: Comparer, a: PackageInfo)
    requires StrictOrder(compareTo)
    ensures !IsNewer(compareTo, a, a)
  {
  }

  /** Nothing not newer than c is newer than something newer than c. */
  lemma NotNewerThanNewer(compareTo: Comparer, a: PackageInfo, b: PackageInfo, c: PackageInfo)
    requires StrictOrder(compareTo) && !IsNewer(compareTo, a, c) && IsNewer(compareTo, b, c)
    ensures !IsNewer(compareTo, a, b)
  {
  }

  lemma NewerWeak(compareTo: Comparer, a: PackageInfo, b: PackageInfo, c: PackageInfo)
    requires StrictWeakOrder(compareTo) && IsNewer(compareTo, a, c)
    ensures IsNewer(compareTo, a, b) || IsNewer(compareTo, b, c)
  {
  }

  /** Errors that abort the migration (exceptions in the source). */
  datatype MigrationError =
    | BuildFailed(project: string)                 // the design-time build threw
    | DuplicateInclude(project: string, id: string) // Dictionary.Add on an existing key
    | MissingItemGroup                             // the manifest has no ItemGroup
    | MissingLatest(id: string)                    // latestPackageByName[id] on a missing key

  /** Upper-casing of one character as done by ordinal case-insensitive comparison, for ASCII letters. */
  function ToUpperAscii(c: char): char
  {
    if 'a' <= c <= 'z' then (c as int - 32) as char else c
  }

  /** `string.Equals(a, b, StringComparison.OrdinalIgnoreCase)`, restricted to ASCII case folding. */
  predicate EqualsIgnoreCase(a: string, b: string)
  {
    |a| == |b| && forall i :: 0 <= i < |a| ==> ToUpperAscii(a[i]) == ToUpperAscii(b[i])
  }

  /** Ignoring case is an equivalence coarser than equality. */
  lemma EqualsIgnoreCaseEquivalence(a: string, b: string, c: string)
    ensures EqualsIgnoreCase(a, a)
    ensures EqualsIgnoreCase(a, b) ==> EqualsIgnoreCase(b, a)
    ensures EqualsIgnoreCase(a, b) && EqualsIgnoreCase(b, c) ==> EqualsIgnoreCase(a, c)
  {
  }
}
