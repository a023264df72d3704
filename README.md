# Central Package Management migrator, modelled in Dafny

The migrator moves a .NET repository to NuGet Central Package Management in three phases.

1. **Scan.** Every `*.*proj` file under the search path is read, except those in excluded directories. Each project's `PackageReference` elements become a map from package id (`Include`) to a package with its version. An MSBuild property placeholder `$(...)` in a version is resolved through a design-time build of the project, which runs at most once per project. Each project's map is folded into one table that holds the latest version of every package.
2. **Manifest.** The table is written into `Directory.Packages.props`. A `PackageVersion` entry is updated when its `Version` differs ignoring case. When a package has no entry, a new one is appended to the first `ItemGroup`. The file is saved only when something changed.
3. **Rewrite.** In every project that has packages, the `PackageReference` selected for each package loses its `Version` attribute. When the project's version is not the table's, the element gets a `VersionOverride` with the project's version. That attribute is namespace-qualified in projects that use the legacy MSBuild namespace. Every such project is saved.

`ExecuteAsync` runs the phases in order and adds a few rules around them:

- the manifest template is copied when `Directory.Packages.props` is missing;
- the command returns 1 when a `Packages.props` exists;
- the `--exclude-directory` option is split on `;` and used as a prefix filter;
- the command returns 0 without writing anything when the table is empty.

## How the model is organised

| module | file | contents |
|---|---|---|
| `Wrappers` | `wrappers.dfy` | `Option` and `Result` |
| `Xml` | `xml.dfy` | Documents as sequences of elements with attribute maps, and the project files found by the search (`FileInfo`). `SelectSingleNode("//tag[@Include='id']")` is the first element with that name and `Include` (`FirstMatch`). |
| `Packages` | `packages.dfy` | `NuGetPackageInfo` as a datatype. Every dictionary is a `PackageMap`, a map whose keys are its entries' ids. `CompareTo` is an abstract `Comparer`. Ordinal case-insensitive equality. The errors that abort a run. |
| `Placeholders` | `placeholders.dfy` | The greedy regular expression `\$\(.*\)`, the property name inside a match, ordinal `string.Replace`. |
| `ProjectFileParser` | `project_file_parser.dfy` | `ParseProjectFile` and `ProcessProjectFile`, as methods with loops, proved against the specification functions `ParseProject`, `FoldProject` and `FoldAll`. |
| `Exclusion` | `exclusion.dfy` | `string.Split(';')` and the directory-prefix filter. |
| `ManifestWriter` | `manifest_writer.dfy` | `UpdateDirectoryPackagesProps`, a loop proved against `UpsertAll`. |
| `ProjectRewriter` | `project_rewriter.dfy` | `UpdateProjectFiles` and its per-project loop, proved against `RewriteDoc`. |
| `MigratorCommand` | `migrator_command.dfy` | `ParseProjectFiles` (proved against `ScanProjects`), the dictionary enumeration, and `ExecuteAsync`. |

Modelling choices:

- **Inputs instead of effects.** The design-time build is an oracle `path -> Option<PropertyBag>`, where `None` means the build throws. A ghost counter counts its calls. The file system is a `Workspace` value, and written files are returned as values.
- **Exceptions.** They become `Failure` results.
- **Dictionaries.** A loop over a dictionary picks its keys with `:|`, so each proof covers every enumeration order. When the order shows in the result (the manifest's appended entries), the enumeration is a sequence parameter. The contracts then speak of the entry each package's query selects, which does not depend on the order.
- **Duplicate Include.** A duplicate `Include` in one project makes `Dictionary.Add` throw (`ProjectFileParser.cs:119`), so the parse fails with `DuplicateInclude`.

## Model

| member | source | states |
|---|---|---|
| ProjectFileParser.PackageReferences | src/CpmMigrator/ProjectFileParser.cs:59 | Every selected element is a PackageReference of the document, and every PackageReference of the document is selected. |
| ProjectFileParser.PackageReferencesConcat | src/CpmMigrator/ProjectFileParser.cs:59 | The selection distributes over concatenation, so each PackageReference is selected once, in document order, and two identical references are both selected. |
| ProjectFileParser.ReadReference | src/CpmMigrator/ProjectFileParser.cs:74-88 | A reference is kept only with a non-empty Version and an Include, and yields those two texts. Otherwise it is skipped: no Version, an empty Version, or no Include. |
| ProjectFileParser.ResolvedVersion | src/CpmMigrator/ProjectFileParser.cs:90-116 | A version without a placeholder match is stored verbatim. Otherwise it is resolved with the build's properties. |
| ProjectFileParser.ResolveMatches | src/CpmMigrator/ProjectFileParser.cs:90-114 | Resolving one version. The build runs iff none has run yet and the version has a match. A failing build fails the reference. Otherwise the result is `ResolvedVersion`, and the cached build result is passed on. |
| ProjectFileParser.AddPackageReference | src/CpmMigrator/ProjectFileParser.cs:71-121 | One loop iteration equals `AddReference`: skip, build failure, duplicate-Include failure, or insert. The build runs iff the reference needs it and none has run. |
| ProjectFileParser.ParseProjectFile | src/CpmMigrator/ProjectFileParser.cs:51-123 | The method returns `ParseProject`. It runs the design-time build at most once. It runs it only if some kept reference has a placeholder, and on success exactly then. A build failure implies the build ran. |
| ProjectFileParser.ParseReferencesErrors | src/CpmMigrator/ProjectFileParser.cs:100-119 | A parse fails only with a build failure or a duplicate Include, each naming the project. |
| ProjectFileParser.ParseReferencesSucceeds | src/CpmMigrator/ProjectFileParser.cs:71-121 | The parse succeeds iff no two kept references share an Include, no Include is already present, and no reference needs a build that fails. |
| ProjectFileParser.ParseReferencesContents | src/CpmMigrator/ProjectFileParser.cs:71-121 | On success the keys are exactly the kept Includes, and each maps to the package with its resolved version. |
| ProjectFileParser.ParseProjectSpec | src/CpmMigrator/ProjectFileParser.cs:51-123 | For a whole document: success iff the references parse cleanly. The map has one entry per kept Include. A version without a placeholder is the raw text. |
| ProjectFileParser.FoldProject | src/CpmMigrator/ProjectFileParser.cs:23-46 | The table after one project has the union of both key sets. |
| ProjectFileParser.FoldProjectInsert | src/CpmMigrator/ProjectFileParser.cs:26-45 | One more package: a new id is inserted, and an existing entry is replaced only when `CompareTo` returns 1. |
| ProjectFileParser.FoldIntoLatest | src/CpmMigrator/ProjectFileParser.cs:23-46 | The `foreach` over the project's map, in any order, leaves the table equal to `FoldProject`. |
| ProjectFileParser.ProcessProjectFile | src/CpmMigrator/ProjectFileParser.cs:13-49 | On a parse failure: the error, with the table unchanged. Otherwise: null iff the map is empty, and the table folded with the map. At most one build runs, and only if some kept reference has a placeholder. On success the build runs exactly then. |
| ProjectFileParser.FoldAllKeys | src/CpmMigrator/ProjectFileParser.cs:23-48 | After all projects, the table's keys are exactly the union of the projects' keys. |
| ProjectFileParser.FoldAllUpperBound | src/CpmMigrator/ProjectFileParser.cs:26-39 | With `CompareTo` a strict order, no project's entry is newer than the table's. |
| ProjectFileParser.FoldAllFirstMaximal | src/CpmMigrator/ProjectFileParser.cs:26-39 | With `CompareTo` a strict weak order, each table entry is some project's entry, and every earlier project's entry for it is older. |
| Placeholders.MatchTexts | src/CpmMigrator/ProjectFileParser.cs:90 | Every match text starts with `$(` and ends with `)`. |
| Placeholders.PropertyName | src/CpmMigrator/ProjectFileParser.cs:110 | The name is the match without its first two and its last character. |
| Placeholders.Resolve | src/CpmMigrator/ProjectFileParser.cs:91-113 | A version without matches is unchanged. |
| Placeholders.SingleLineMatch | src/CpmMigrator/ProjectFileParser.cs:90 | On a single-line version with a placeholder, the one match runs from the first `$(` to the last `)`. |
| Placeholders.SingleLineMatches | src/CpmMigrator/ProjectFileParser.cs:90 | On a single-line version there is a match iff some `$(` is followed by a `)`. The match is then the one text from the first `$(` to the last `)`. |
| Placeholders.SingleLineResolution | src/CpmMigrator/ProjectFileParser.cs:90-113 | On a single-line version, resolution replaces the text from the first `$(` to the last `)` with the value of the property between them, and keeps the rest. |
| Placeholders.ResolveOneMatch | src/CpmMigrator/ProjectFileParser.cs:110-113 | With one match, resolution is `Replace` of every occurrence of the match text by the property's value. |
| Placeholders.ReplaceOnce | src/CpmMigrator/ProjectFileParser.cs:113 | A text with a single occurrence has exactly that occurrence replaced. |
| Placeholders.ReplaceAbsent | src/CpmMigrator/ProjectFileParser.cs:113 | Replacing an absent text changes nothing. |
| Xml.FirstMatch | src/CpmMigrator/MigratorCommand.cs:225 | The index is that of a matching element with no match before it. None iff no element matches. |
| Xml.FirstMatchElement | src/CpmMigrator/MigratorCommand.cs:154 | The selected `PackageVersion` is an element of the document that matches the query. None iff no element matches. |
| Packages.KeyedByIdInsert | src/CpmMigrator/ProjectFileParser.cs:33-43 | Storing a package under its own id keeps every key equal to its entry's id. |
| Packages.EqualsIgnoreCaseEquivalence | src/CpmMigrator/MigratorCommand.cs:160 | Comparison ignoring case is reflexive, symmetric and transitive. |
| Packages.NotNewerThanNewer | src/CpmMigrator/ProjectFileParser.cs:30 | Under a strict order, a version not newer than c is not newer than one that is newer than c. |
| Exclusion.Split | src/CpmMigrator/MigratorCommand.cs:85 | There is at least one part, no part contains `;`, and joining the parts gives the input back. |
| Exclusion.SplitJoin | src/CpmMigrator/MigratorCommand.cs:85 | Splitting the join of `;`-free parts gives back those parts. |
| Exclusion.ExcludeDirectories | src/CpmMigrator/MigratorCommand.cs:85 | No prefixes iff the option is absent or empty. Otherwise the `;`-separated parts of the option. |
| Exclusion.FilterProjects | src/CpmMigrator/MigratorCommand.cs:88 | A project is kept iff it is not excluded: it has no directory name, or that name starts with none of the prefixes. |
| Exclusion.FilterProjectsConcat | src/CpmMigrator/MigratorCommand.cs:88 | Filtering distributes over concatenation, so the kept projects keep their order. |
| Exclusion.NoExclusionKeepsAll | src/CpmMigrator/MigratorCommand.cs:85-88 | An absent or empty option keeps every project. |
| Exclusion.TrailingSeparatorExcludesAll | src/CpmMigrator/MigratorCommand.cs:85-88 | A value ending in `;` excludes every project that has a directory name. |
| ManifestWriter.NewPackageVersion | src/CpmMigrator/MigratorCommand.cs:176-180 | The new element is selected by its package's query and carries its version. |
| ManifestWriter.UpdateDirectoryPackagesProps | src/CpmMigrator/MigratorCommand.cs:132-197 | A manifest without an ItemGroup fails before any edit. Otherwise the loop computes `UpsertAll`, and the document is returned for saving iff it was edited. |
| ManifestWriter.UpsertedSettles | src/CpmMigrator/MigratorCommand.cs:157-183 | A written entry answers its query and needs no further edit. It lacks a Version iff the existing entry lacked one. |
| ManifestWriter.UpsertStep | src/CpmMigrator/MigratorCommand.cs:153-183 | One iteration edits iff the package's entry needed it: it was missing, or its Version differs ignoring case. The package's entry becomes its written form, and every other id's entry is unchanged. |
| ManifestWriter.UpsertAllOthers | src/CpmMigrator/MigratorCommand.cs:151-184 | Entries of ids outside the table are never touched. |
| ManifestWriter.UpsertAllEntry | src/CpmMigrator/MigratorCommand.cs:151-184 | After the loop, the entry of the package at any position is its written form, whichever packages come after it. |
| ManifestWriter.UpsertAllEntries | src/CpmMigrator/MigratorCommand.cs:151-184 | After the loop, every package's entry is its written form. |
| ManifestWriter.UpsertAllEdited | src/CpmMigrator/MigratorCommand.cs:135-196 | The edited flag is set iff some package's entry needed an edit in the original document. |
| ManifestWriter.UpsertAllVersions | src/CpmMigrator/MigratorCommand.cs:157-183 | Each package's entry exists and equals its version ignoring case. An added entry has it exactly. An entry without a Version stays without one. |
| ManifestWriter.UpsertAllIdempotent | src/CpmMigrator/MigratorCommand.cs:187-196 | A second pass with the same table edits nothing, so nothing is saved. |
| ManifestWriter.MissingEntries | src/CpmMigrator/MigratorCommand.cs:174-183 | The packages that get a new entry are exactly the packages whose query selects nothing. |
| ManifestWriter.SelectedEntryMeaning | src/CpmMigrator/MigratorCommand.cs:154 | A position counts as selected iff the query of some package selects it. |
| ManifestWriter.WrittenAtMeaning | src/CpmMigrator/MigratorCommand.cs:157-168 | With distinct ids, the entry a package's query selects is written with that package's version. |
| ManifestWriter.UpsertAllShape | src/CpmMigrator/MigratorCommand.cs:174-183 | After the loop the first ItemGroup holds one more element per package without an entry. Those new entries sit at its end, in enumeration order. |
| ManifestWriter.UpsertAllKeepsUnselected | src/CpmMigrator/MigratorCommand.cs:151-184 | Every element that no package's query selects is unchanged. This covers elements that are not `PackageVersion`, later entries with the same `Include`, and entries without an `Include`. Elements before the end of the first ItemGroup keep their position. Those after it move by the number of appended entries. |
| ManifestWriter.UpsertAllWritesSelected | src/CpmMigrator/MigratorCommand.cs:157-168 | The entry each package's query selects is replaced in place by its written form. |
| ManifestWriter.UpsertAllFrame | src/CpmMigrator/MigratorCommand.cs:151-184 | The whole document after the loop: unselected elements unchanged, selected entries written in place, and the missing packages' entries appended to the first ItemGroup. |
| ProjectRewriter.Rewritten | src/CpmMigrator/MigratorCommand.cs:228-241 | The rewrite keeps the element's name and Include. |
| ProjectRewriter.RewrittenAttributes | src/CpmMigrator/MigratorCommand.cs:228-241 | Version is removed. A non-latest package gets the override (qualified iff legacy) with its version. Every other attribute is unchanged. |
| ProjectRewriter.RewriteElements | src/CpmMigrator/MigratorCommand.cs:218-242 | The rewrite keeps the number of elements. |
| ProjectRewriter.RewriteKeepsQueries | src/CpmMigrator/MigratorCommand.cs:225-238 | Rewriting never changes which element a query selects, so the order of the packages does not matter. |
| ProjectRewriter.RewritePackage | src/CpmMigrator/MigratorCommand.cs:219-241 | One iteration of the inner loop handles exactly one more package. |
| ProjectRewriter.RewriteProject | src/CpmMigrator/MigratorCommand.cs:213-242 | Fails iff some package is missing from the table, naming that package. Otherwise the result is `RewriteDoc` for every enumeration order. |
| ProjectRewriter.RewrittenReferences | src/CpmMigrator/MigratorCommand.cs:218-241 | Each package's selected element has no Version. Its VersionOverride equals the project's version when the entry is not the table's. It keeps its override as it was when the entry is the table's. |
| ProjectRewriter.RewriteOnlySelected | src/CpmMigrator/MigratorCommand.cs:225-238 | Elements that no package's query selects are unchanged, so a package without an element changes nothing. |
| ProjectRewriter.SecondParseFindsNothing | src/CpmMigrator/ProjectFileParser.cs:74-82 | Re-reading a rewritten project (without shadowed references) finds no versioned references. |
| ProjectRewriter.UpdateProjectFiles | src/CpmMigrator/MigratorCommand.cs:199-248 | Each project is saved, in order, as its `RewriteDoc`. A missing table entry stops the loop with `MissingLatest`, after the earlier projects were saved. |
| MigratorCommand.ParseProjectFiles | src/CpmMigrator/MigratorCommand.cs:114-130 | Returns `ScanProjects` and the table `FoldAll` of the kept maps. The build count of each processed project is at most one, and one only if that project has a kept reference with a placeholder. On success every project is processed, and its count is one exactly when it has such a reference. |
| MigratorCommand.ScanFailure | src/CpmMigrator/MigratorCommand.cs:119-127 | The scan succeeds iff every project parses. Otherwise it fails with the error of the first project that fails. |
| MigratorCommand.ScanFound | src/CpmMigrator/MigratorCommand.cs:119-127 | Exactly the projects with a non-empty map are kept, each with its parsed map. |
| MigratorCommand.ScanErrors | src/CpmMigrator/MigratorCommand.cs:119-127 | A scan fails only with a build failure or a duplicate Include of one of its projects. |
| MigratorCommand.TableCoversProjects | src/CpmMigrator/MigratorCommand.cs:221 | Every kept project's package ids are in the table, so the lookup at line 221 never misses. |
| MigratorCommand.TableEmpty | src/CpmMigrator/MigratorCommand.cs:95-99 | The table is empty iff no project has a package. |
| MigratorCommand.ScanFindsNothing | src/CpmMigrator/MigratorCommand.cs:95-99 | When every project parses to no packages (as after a migration), the scan keeps nothing, so the run stops at the empty-table check. |
| MigratorCommand.Values | src/CpmMigrator/MigratorCommand.cs:151 | The enumeration yields each table entry exactly once, with distinct ids. |
| MigratorCommand.UpdatedManifest | src/CpmMigrator/MigratorCommand.cs:151-196 | For any enumeration of the table: the file is saved iff some entry needed an edit. Every table package's entry is its written form, and all other entries are unchanged. |
| MigratorCommand.ExecuteAsync | src/CpmMigrator/MigratorCommand.cs:57-111 | Covers every exit path; see below. |

`ExecuteAsync` contract, path by path:

- **Packages.props exists:** returns 1 with nothing saved. The template has still been copied if the manifest was missing.
- **Scan fails:** the run fails with that error.
- **No packages:** returns 0 with nothing saved.
- **Manifest has no ItemGroup:** fails with `MissingItemGroup` and saves nothing.
- **Otherwise:** returns 0, and:
  - the manifest is saved iff some entry needed an edit;
  - every table package's entry is its written form, and no other entry changes;
  - every project with packages is saved as its rewrite.
- **On every path:** `MissingLatest` never occurs.

## Left out

- Logging and the logger configuration for the design-time build: output only.
- File system and environment work: locating the repository root, patching NuGet.config, enumerating `*.*proj` files, and opening and saving files. These become `Workspace` inputs and returned values.
- `AssetTemplate.cs` and the asset copy: the template becomes an input manifest.
- XML parsing, serialisation and whitespace preservation: documents are element sequences.
- Nesting: the manifest's first ItemGroup is reduced to the index where appended entries go.
- `MSBuildXmlNamespaceQueryHelper` is not part of this model. Legacy-namespace detection is a boolean of the document, and queries ignore namespaces.
- XPath quoting: an Include that contains a quote character would break the query string; ids are compared as plain strings.
- `DesignTimeBuildHelper.cs`: this is the oracle. Its "first result, warn when multi-targeted" rule is not modelled.
- `NuGetPackageInfo` is not part of this model. `CompareTo` is an abstract function, and `==` at `MigratorCommand.cs:221` is assumed to be structural equality on id and version.
- The sample project used by `ProjectFileParserTests.cs` is not part of this model, so its expected result (five packages, NUnit 3.13.3) is not stated.
- `async`/`Task` plumbing and the Spectre.Console command wiring. An exception that escapes `ExecuteAsync` is a `Failure` result, not an exit code.
- ExecuteAsync: the manifest is stated through the entry each package's query selects. The order of the appended entries follows the dictionary's enumeration order, which .NET does not promise. `UpsertAllFrame` gives the whole element sequence for one given enumeration order.
- UpdateProjectFiles: projects are processed in the order they were added to the dictionary. In the model that is a sequence in scan order.
- FoldAllUpperBound and FoldAllFirstMaximal hold under order hypotheses on `CompareTo`, because its definition is not available.
- EqualsIgnoreCase folds ASCII letters only. .NET's ordinal ignore-case comparison also folds other scripts.
- IsExcluded uses an ordinal prefix test, while `string.StartsWith(string)` in the source is culture-sensitive.
- SecondParseFindsNothing assumes `NoShadowedReference`: every kept reference is the first PackageReference with its Include. Without that, an earlier reference that lacks a Version is the one the query selects, and the versioned one keeps its Version.
- The `PackageMap` subset type assumes that every dictionary maps a package id to a package with that id. That holds for every insertion in the source.
