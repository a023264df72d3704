/**
 * The `--exclude-directory` option: its value is split on ';' into
 * directory prefixes, and a project is dropped when the name of its
 * directory starts with any of them.
 */
module Exclusion {
  import opened Wrappers
  import opened Xml

  const Separator := ';'

  /** The parts joined back with the separator between them. */
  function Join(parts: seq<string>, sep: char): (s: string)
    requires |parts| >= 1
    decreases |parts|
  {
    if |parts| == 1 then parts[0] else parts[0] + [sep] + Join(parts[1..], sep)
  }

  /**
   * `string.Split(sep)`: the maximal runs between separators, empty runs
   * included, so there is always at least one part.
   */
  function Split(s: string, sep: char): (parts: seq<string>)
    ensures |parts| >= 1
    ensures forall i :: 0 <= i < |parts| ==> sep !in parts[i]
    ensures Join(parts, sep) == s
    decreases |s|
  {
    if s == [] then [""]
    else
      var rest := Split(s[1..], sep);
      if s[0] == sep then
        assert Join([""] + rest, sep) == [sep] + Join(rest, sep);
        [""] + rest
      else
        var parts := [[s[0]] + rest[0]] + rest[1..];
        assert |rest| > 1 ==> Join(rest, sep) == rest[0] + [sep] + Join(rest[1..], sep);
        assert parts[1..] == rest[1..];
        assert forall i :: 1 <= i < |parts| ==> parts[i] == rest[i];
        parts
  }

  /** A string without the separator is one part. */
  lemma {:induction false} SplitSingle(a: string, sep: char)
    requires sep !in a
    ensures Split(a, sep) == [a]
    decreases |a|
  {
    if a != [] {
      assert a[0] != sep;
      SplitSingle(a[1..], sep);
    }
  }

  /** A separator-free part followed by a separator splits off as the first part. */
  lemma {:induction false} SplitPrefix(a: string, sep: char, t: string)
    requires sep !in a
    ensures Split(a + [sep] + t, sep) == [a] + Split(t, sep)
    decreases |a|
  {
    var s := a + [sep] + t;
    if a == [] {
      assert s[0] == sep && s[1..] == t;
    } else {
      assert s[0] == a[0] && a[0] != sep;
      assert s[1..] == a[1..] + [sep] + t;
      SplitPrefix(a[1..], sep, t);
      assert [a[0]] + a[1..] == a;
    }
  }

  /** Split inverts Join on parts without the separator. */
  lemma {:induction false} SplitJoin(parts: seq<string>, sep: char)
    requires |parts| >= 1
    requires forall i :: 0 <= i < |parts| ==> sep !in parts[i]
    ensures Split(Join(parts, sep), sep) == parts
    decreases |parts|
  {
    if |parts| == 1 {
      SplitSingle(parts[0], sep);
    } else {
      SplitJoin(parts[1..], sep);
      SplitPrefix(parts[0], sep, Join(parts[1..], sep));
    }
  }

  /** A string that ends with the separator has an empty last part. */
  lemma {:induction false} SplitTrailingSeparator(a: string, sep: char)
    ensures var parts := Split(a + [sep], sep); parts[|parts| - 1] == ""
    decreases |a|
  {
    var s := a + [sep];
    if a == [] {
      assert s[1..] == [];
    } else {
      assert s[1..] == a[1..] + [sep];
      SplitTrailingSeparator(a[1..], sep);
    }
  }

  /** The prefixes to exclude: none when the option is absent or empty, else its ';'-separated parts. */
  function ExcludeDirectories(excludeDirectory: Option<string>): (excludes: seq<string>)
    ensures excludes == [] <==> excludeDirectory.None? || excludeDirectory.value == ""
    ensures excludes != [] ==> Join(excludes, Separator) == excludeDirectory.value
    ensures forall i :: 0 <= i < |excludes| ==> Separator !in excludes[i]
  {
    if excludeDirectory.None? || excludeDirectory.value == "" then [] else Split(excludeDirectory.value, Separator)
  }

  /** Some prefix is a (case-sensitive) prefix of the directory name; a project without one is never excluded. */
  predicate IsExcluded(directoryName: Option<string>, excludes: seq<string>)
  {
    directoryName.Some? && exists e :: e in excludes && e <= directoryName.value
  }

  /** The projects that are not excluded, in their original order. */
  function FilterProjects(projects: seq<ProjectFile>, excludes: seq<string>): (kept: seq<ProjectFile>)
    ensures |kept| <= |projects|
    ensures forall p :: p in kept <==> p in projects && !IsExcluded(p.directoryName, excludes)
    decreases |projects|
  {
    if projects == [] then []
    else
      var rest := FilterProjects(projects[1..], excludes);
      assert forall p :: p in projects <==> p == projects[0] || p in projects[1..];
      if IsExcluded(projects[0].directoryName, excludes) then rest else [projects[0]] + rest
  }

  /** Filtering distributes over concatenation, so the kept projects keep their relative order. */
  lemma {:induction false} FilterProjectsConcat(a: seq<ProjectFile>, b: seq<ProjectFile>, excludes: seq<string>)
    ensures FilterProjects(a + b, excludes) == FilterProjects(a, excludes) + FilterProjects(b, excludes)
    decreases |a|
  {
    if a == [] {
      assert a + b == b;
    } else {
      assert (a + b)[0] == a[0] && (a + b)[1..] == a[1..] + b;
      FilterProjectsConcat(a[1..], b, excludes);
      var x, y := FilterProjects(a[1..], excludes), FilterProjects(b, excludes);
      assert [a[0]] + (x + y) == ([a[0]] + x) + y;
    }
  }

  /** Without the option (or with an empty value) every project is kept. */
  lemma {:induction false} NoExclusionKeepsAll(projects: seq<ProjectFile>, excludeDirectory: Option<string>)
    requires excludeDirectory.None? || excludeDirectory.value == ""
    ensures FilterProjects(projects, ExcludeDirectories(excludeDirectory)) == projects
    decreases |projects|
  {
    if projects != [] {
      NoExclusionKeepsAll(projects[1..], excludeDirectory);
      assert [projects[0]] + projects[1..] == projects;
    }
  }

  /**
   * A value ending in ';' (such as "obj;") yields an empty prefix, which
   * every directory name starts with: only projects without a directory name remain.
   */
  lemma TrailingSeparatorExcludesAll(projects: seq<ProjectFile>, a: string)
    ensures var kept := FilterProjects(projects, ExcludeDirectories(Some(a + [Separator])));
      forall p :: p in kept <==> p in projects && p.directoryName.None?
  {
    var excludes := ExcludeDirectories(Some(a + [Separator]));
    SplitTrailingSeparator(a, Separator);
    assert "" in excludes;
    forall p | p in projects && p.directoryName.Some?
      ensures IsExcluded(p.directoryName, excludes)
    {
      assert "" <= p.directoryName.value;
    }
  }
}
