# ProjectAssistant version engine, modelled in Dafny

ProjectAssistant is a desktop tool for Visual Studio solutions. It finds projects, referenced
assemblies and NuGet packages below a root directory and rewrites the version strings they
carry. That means:

- the `AssemblyVersion`, `AssemblyFileVersion` and `AssemblyInformationalVersion` literals of
  `Properties\AssemblyInfo.cs`;
- the `Version=` segment of `<Reference Include="…">` in `.csproj` manifests, and the package
  folder inside their `<HintPath>`;
- the `version` of `<package>` entries in `packages.config`;
- the `<version>` and `<dependency>` elements of `.nuspec` files.

Every batch operation returns one `ResultInfo` per item. A failure on one item is recorded in
that item's result and does not stop the next item.

This project models that engine:

- the string and path helpers (`VersionHelper`, `VSProjectHelper`);
- the data objects (`ProjectInfo`, `ReferAssemblyInfo`, `NugetInfo`, `RefNugetInfo`,
  `ResultInfo`);
- the four controllers (projects, referenced assemblies, referenced packages, packages);
- the tri-state check tree of the user interface (`Project`, `RefProject`, `Nuget`,
  `RefNuget`);
- the non-empty-string validator and the `AddRange` extension on observable collections.

The file system is a `Disk` object. It holds:

- `directories`: the directory enumeration, in order;
- `listing`: the file enumeration;
- `files`: a map from path to content.

A content is either an XML document, reduced to the element lists the readers look at, or a
list of text lines. `Save` and `WriteAllLines` replace one entry of that map. Every reader and
writer is specified by a function from the old map to an `Effect` (a result and the new map),
and each method's `ensures` ties what it does on the `Disk` to that function.

The .NET behaviour the code relies on is written out:

- `Split`, `Join`, `Replace` (an empty old value throws), `Trim` and `Substring` (`ArgumentOutOfRange`);
- `int.Parse` (white space, sign, `FormatException`, `OverflowException`) and unchecked Int32
  addition;
- `Path.GetFileNameWithoutExtension`, `Path.Combine` and `Path.GetDirectoryName`;
- the null references the code can hit: a missing `Include`, a missing `version` attribute,
  a `<version>` element without children.

Files:

- `wrappers.dfy`: Option, Result, the exceptions and `Partial`/`Effect`.
- `text.dfy`: .NET strings.
- `seqs.dfy`: first/last-index scans.
- `documents.dfy`: paths, search patterns, `Disk`.
- `version_helper.dfy`
- `vs_project_helper.dfy`
- `model.dfy`
- `project_controller.dfy`
- `reference_assembly_controller.dfy`
- `reference_nuget_controller.dfy`
- `nuget_controller.dfy`
- `check_tree.dfy`
- `validation.dfy`
- `collection_extension.dfy`

## Model

| member | source | states |
|---|---|---|
| VersionHelper.GetIncreasionVersion | scr/ProjectAssistant.Platform/Helper/VersionHelper.cs:17-22 | specification function with no contract of its own: the component at position versionNum - 1 becomes its value plus the step; its contract is in IncreasionVersionFails, IncreasionVersionComponents and IncreasionVersionParsesBack |
| VersionHelper.IncreasionVersionFails | scr/ProjectAssistant.Platform/Helper/VersionHelper.cs:17-22 | bumping fails exactly when versionNum is not positive, there are fewer than versionNum dot-components, or the chosen component is not an Int32 |
| VersionHelper.IncreasionVersionComponents | scr/ProjectAssistant.Platform/Helper/VersionHelper.cs:19-21 | a bumped version has as many components as before, all equal except the chosen one, which is the old value plus the step with Int32 wrap-around, in decimal |
| VersionHelper.IncreasionVersionParsesBack | scr/ProjectAssistant.Platform/Helper/VersionHelper.cs:20 | the bumped component parses back to the wrapped sum and has no leading zero (so "007" bumped by one gives "8") |
| VersionHelper.ReadAsemblyVersion | scr/ProjectAssistant.Platform/Helper/VersionHelper.cs:29-36 | the literal read holds no quote; a failure is always ArgumentOutOfRange |
| VersionHelper.ReadAsemblyVersionIsSecondPiece | scr/ProjectAssistant.Platform/Helper/VersionHelper.cs:31-33 | reading a line gives its second '"'-separated piece, and fails exactly when the line has fewer than two quotes |
| VersionHelper.ReadQuoted | scr/ProjectAssistant.Platform/Helper/VersionHelper.cs:31-35 | with the first quote at i and the next quote j characters after it, the literal is exactly the text between them |
| VersionHelper.ReadOneQuote | scr/ProjectAssistant.Platform/Helper/VersionHelper.cs:32-33 | a line with exactly one quote fails with ArgumentOutOfRange |
| VersionHelper.VersionFormatChars | src/ProjectAssistantApp/ViewModels/ProjectMgrViewModel.cs:97 | a version the input form accepts holds no ',', '=' or '"', so it stays one Include segment and one quoted literal |
| VsProjectHelper.ChangeReferences | scr/ProjectAssistant.Platform/Helper/VSProjectHelper.cs:39-63 | specification function with no contract of its own: the reference loop of ChangeReferenceVersion on a loaded manifest; its contract is in ChangeStopIsFirstReference, ChangeFailsOnMissingInclude, ChangeFalseIffSameVersion, ChangeNoMatchIff, ChangedShape and ChangeRewritesFirstReference |
| VsProjectHelper.ReferenceVersion | scr/ProjectAssistant.Platform/Helper/VSProjectHelper.cs:93-110 | specification function with no contract of its own: the reference loop of GetReferenceVersion on a loaded manifest; its contract is in ReferenceVersionSkipsMissingInclude, ChangeStopIsFirstReference and ChangeReadsBack |
| VsProjectHelper.GetReferenceVersion | scr/ProjectAssistant.Platform/Helper/VSProjectHelper.cs:75-119 | specification function with no contract of its own: GetReferenceVersion on the files: the manifest is loaded, then ReferenceVersion runs; its round trip with the rewrite is ChangeReadsBack |
| VsProjectHelper.SegmentVersion | scr/ProjectAssistant.Platform/Helper/VSProjectHelper.cs:47 | `Split('=')[1]` of an Include segment fails with IndexOutOfRange exactly when the segment has no '='; the version read holds no '=' |
| VsProjectHelper.SegmentVersionBetweenEquals | scr/ProjectAssistant.Platform/Helper/VSProjectHelper.cs:47 | the version read is the text after the first '=', up to the next '=' or the end |
| VsProjectHelper.ReferenceVersionSkipsMissingInclude | scr/ProjectAssistant.Platform/Helper/VSProjectHelper.cs:98-100 | GetReferenceVersion passes over a reference that has no Include attribute |
| VsProjectHelper.ChangeStopIsFirstReference | scr/ProjectAssistant.Platform/Helper/VSProjectHelper.cs:39-63 | ChangeReferenceVersion stops at or before the first reference to the assembly; when it stops on an existing Include, that is the reference GetReferenceVersion reads |
| VsProjectHelper.ChangeFailsOnMissingInclude | scr/ProjectAssistant.Platform/Helper/VSProjectHelper.cs:41-42 | the change fails with NullReference exactly when a reference without Include comes before every reference to the assembly |
| VsProjectHelper.ChangeFalseIffSameVersion | scr/ProjectAssistant.Platform/Helper/VSProjectHelper.cs:48-51 | the change returns false exactly when the first reference to the assembly is reached and already carries the requested version |
| VsProjectHelper.ChangeNoMatchIff | scr/ProjectAssistant.Platform/Helper/VSProjectHelper.cs:39-66 | the change does nothing and returns true exactly when every reference has Include and none names the assembly |
| VsProjectHelper.SegmentVersionAfterReplace | scr/ProjectAssistant.Platform/Helper/VSProjectHelper.cs:52 | after the old version in a segment is replaced by a version free of '=', the segment reads back as the new version |
| VsProjectHelper.ChangedShape | scr/ProjectAssistant.Platform/Helper/VSProjectHelper.cs:45-56 | a rewrite replaces the first reference to the assembly by one whose Include is the old segments rejoined with the version replaced in the second segment; its children are kept |
| VsProjectHelper.ChangeRewritesFirstReference | scr/ProjectAssistant.Platform/Helper/VSProjectHelper.cs:45-61 | a rewrite leaves every other reference equal, keeps the children, and changes only the second Include segment |
| VsProjectHelper.ChangeReadsBack | scr/ProjectAssistant.Platform/Helper/VSProjectHelper.cs:21-67 | after a rewrite with a version free of ',' and '=', GetReferenceVersion reads the new version (round trip) |
| VsProjectHelper.ChangeReferenceVersion | scr/ProjectAssistant.Platform/Helper/VSProjectHelper.cs:21-67 | the method's result and the files it leaves are those of the change function: a missing file or Include throws, false for the same version, and one save of the rewritten manifest |
| VsProjectHelper.SetVersionsTargets | scr/ProjectAssistant.Platform/Helper/VSProjectHelper.cs:152-160 | when no entry with the id lacks a version, exactly the entries with the id get the new version, every other entry is kept, and ids never change |
| VsProjectHelper.SetVersionsIdempotent | scr/ProjectAssistant.Platform/Helper/VSProjectHelper.cs:152-160 | setting the versions a second time succeeds and changes nothing |
| VsProjectHelper.ChangeDependentFile | scr/ProjectAssistant.Platform/Helper/VSProjectHelper.cs:146-161 | specification function with no contract of its own: the files ChangeDependentNugetVersion leaves and what it throws; its contract is in SetVersionsTargets, SetVersionsIdempotent and the method ChangeDependentNugetVersion |
| VsProjectHelper.ChangeDependentNugetVersion | scr/ProjectAssistant.Platform/Helper/VSProjectHelper.cs:146-161 | every `<dependency>` whose id equals the name gets the new version, saved after each; the first one without a version attribute throws, and the earlier ones stay saved |
| VsProjectHelper.ChangePackagesResult | scr/ProjectAssistant.Platform/Helper/VSProjectHelper.cs:177-186 | the packages.config pass returns true exactly when some package has the id; repeating it gives the same outcome; GetRefNugetVersion then reads the new version |
| VsProjectHelper.PackagesPassOk | scr/ProjectAssistant.Platform/Helper/VSProjectHelper.cs:177-186 | the pass with no missing version retargets every package with the id and reports whether one had it |
| VsProjectHelper.PackagesPassStops | scr/ProjectAssistant.Platform/Helper/VSProjectHelper.cs:180-184 | the pass stopped by the first package with the id and no version throws NullReference, with the packages before it already retargeted and saved |
| VsProjectHelper.ChangePackages | scr/ProjectAssistant.Platform/Helper/VSProjectHelper.cs:177-186 | the package loop on the Disk does exactly what the packages.config pass function says |
| VsProjectHelper.ChangeRefNugetFile | scr/ProjectAssistant.Platform/Helper/VSProjectHelper.cs:170-207 | specification function with no contract of its own: the files and result of ChangeRefNugetVersion; its contract is in ChangePackagesResult and the method ChangeRefNugetVersion |
| VsProjectHelper.ChangeRefNugetVersion | scr/ProjectAssistant.Platform/Helper/VSProjectHelper.cs:170-207 | the packages.config pass, then, only when some package matched, the first `*.csproj` in the same directory gets its HintPaths rewritten |
| VsProjectHelper.RewriteHintPathSegments | scr/ProjectAssistant.Platform/Helper/VSProjectHelper.cs:403-434 | a rewritten HintPath differs from the old one only in the segment after the first "packages" segment, which becomes its text before the first digit followed by the new version |
| VsProjectHelper.RewriteChildren | scr/ProjectAssistant.Platform/Helper/VSProjectHelper.cs:393-437 | rewriting a reference's children keeps their number and their element names |
| VsProjectHelper.RewriteKeepsUnaffected | scr/ProjectAssistant.Platform/Helper/VSProjectHelper.cs:389-421 | a reference whose first Include segment is not the package name, or none of whose children has a rewritable HintPath, is kept as it is |
| VsProjectHelper.FindHintPath | scr/ProjectAssistant.Platform/Helper/VSProjectHelper.cs:393-437 | the inner loop finds the first child that is a HintPath with a "packages" segment that is then rewritten or indexed past the end |
| VsProjectHelper.RewriteReference | scr/ProjectAssistant.Platform/Helper/VSProjectHelper.cs:387-438 | one turn of the outer loop gives exactly the per-reference rewrite: NullReference on a missing Include, the reference kept when the name differs |
| VsProjectHelper.UpdateNugetRefFile | scr/ProjectAssistant.Platform/Helper/VSProjectHelper.cs:359-445 | specification function with no contract of its own: the files and result of UpdateNugetRefVersion; its contract is in RewriteStopsAt, RewriteAllOf and the method UpdateNugetRefVersion |
| VsProjectHelper.UpdateNugetRefVersion | scr/ProjectAssistant.Platform/Helper/VSProjectHelper.cs:359-445 | references are rewritten and saved in order until the first failing one; when it does not throw, the method returns "" |
| VsProjectHelper.RewriteReferencesInPlace | scr/ProjectAssistant.Platform/Helper/VSProjectHelper.cs:387-438 | the reference loop leaves the manifest holding exactly the rewritten references, and reports the error that stopped it |
| VsProjectHelper.RewriteStopsAt | scr/ProjectAssistant.Platform/Helper/VSProjectHelper.cs:387-438 | at the first failing reference, the ones before it are rewritten and it and the rest are kept |
| VsProjectHelper.RewriteAllOf | scr/ProjectAssistant.Platform/Helper/VSProjectHelper.cs:387-438 | when no reference fails, each one is rewritten or kept |
| VsProjectHelper.GetRefNuget | scr/ProjectAssistant.Platform/Helper/VSProjectHelper.cs:283-296 | specification function with no contract of its own: GetRefNuget on the files; its contract is in PackageIds |
| VsProjectHelper.PackageIds | scr/ProjectAssistant.Platform/Helper/VSProjectHelper.cs:283-296 | GetRefNuget lists the package ids in order, and throws NullReference exactly when some package has no id |
| VsProjectHelper.GetRefNugetVersion | scr/ProjectAssistant.Platform/Helper/VSProjectHelper.cs:334-350 | specification function with no contract of its own: the version of the first package with the id, or "" when none has it; its round trip with the packages.config pass is ChangePackagesResult |
| VsProjectHelper.ListEquals | scr/ProjectAssistant.Platform/Helper/VSProjectHelper.cs:304-326 | specification function with no contract of its own: Equals as written; ListEqualsNotSymmetric and SameElementsSymmetric state what it does and what was meant |
| VsProjectHelper.ListEqualsNotSymmetric | scr/ProjectAssistant.Platform/Helper/VSProjectHelper.cs:304-326 | the list comparison holds for (["a","a"], ["a","b"]) but not for (["a","b"], ["a","a"]) |
| VsProjectHelper.SameElementsSymmetric | scr/ProjectAssistant.Platform/Helper/VSProjectHelper.cs:304-326 | multiset equality of the lists is symmetric and implies the as-written comparison both ways |
| VsProjectHelper.ReadNugetVersion | scr/ProjectAssistant.Platform/Helper/VSProjectHelper.cs:130-137 | specification function with no contract of its own: the scan of BuildNugetVersion over the `<version>` elements; its contract is in LastVersionTextIsLast and ReachedVersions |
| VsProjectHelper.LastVersionTextIsLast | scr/ProjectAssistant.Platform/Helper/VSProjectHelper.cs:130-137 | BuildNugetVersion's value is the text of the last `<version>` whose first child is text, or the old value when there is none |
| VsProjectHelper.ReachedVersions | scr/ProjectAssistant.Platform/Helper/VSProjectHelper.cs:130-137 | the scan reaches the elements before the first `<version>` without children, on which it throws |
| VsProjectHelper.BumpNugetVersion | scr/ProjectAssistant.Platform/Helper/VSProjectHelper.cs:263-272 | specification function with no contract of its own: NugetVersion after the scan of IncreaseNugetVersion; its contract is in BumpThenRead |
| VsProjectHelper.BumpedVersions | scr/ProjectAssistant.Platform/Helper/VSProjectHelper.cs:263-272 | IncreaseNugetVersion treats every element alone: a non-empty text takes the new version, anything else is kept |
| VsProjectHelper.BumpThenRead | scr/ProjectAssistant.Platform/Helper/VSProjectHelper.cs:258-276 | after a bump, every non-empty text is the new version and NugetVersion is the new version when some text was non-empty; BuildNugetVersion then reads the new version, unless the last text child was empty |
| VsProjectHelper.MarkerOf | scr/ProjectAssistant.Platform/Helper/VSProjectHelper.cs:236-247 | a line feeds the informational field exactly when it contains that marker, and no field exactly when it contains none of the three |
| VsProjectHelper.SetField | scr/ProjectAssistant.Platform/Helper/VSProjectHelper.cs:236-247 | the marked field takes the version and the other two keep theirs |
| VsProjectHelper.ScanLines | scr/ProjectAssistant.Platform/Helper/VSProjectHelper.cs:229-248 | specification function with no contract of its own: the line loop of GetAssemblyInfo; its contract is in ScanLinesStops and ScanLinesLastWins |
| VsProjectHelper.ScanLinesStops | scr/ProjectAssistant.Platform/Helper/VSProjectHelper.cs:229-248 | once a line has thrown, the lines after it change nothing |
| VsProjectHelper.ScanLinesLastWins | scr/ProjectAssistant.Platform/Helper/VSProjectHelper.cs:229-248 | the scan throws (ArgumentOutOfRange) exactly when a line feeding a field has fewer than two quotes; otherwise each field holds the literal of the last non-comment line feeding it, or keeps its value |
| VsProjectHelper.PropertiesDir | scr/ProjectAssistant.Platform/Helper/VSProjectHelper.cs:216 | GetAssemblyInfo looks in a directory named "Properties" |
| VsProjectHelper.ScanLineChangesOneField | scr/ProjectAssistant.Platform/Helper/VSProjectHelper.cs:231-247 | a line that does not feed a field leaves it alone, and a line holding the informational marker feeds no other field |
| Model.ResultInfo.HasError | src/ProjectAssistant.Contract/Model/ResultInfo.cs:19 | HasError holds exactly when the error holds a character that is not white space |
| Model.ProjectInfo.Empty | src/ProjectAssistant.Platform/Model/ProjectInfo.cs:40-42 | every field is unset and there are no items |
| Model.ProjectInfo.constructor | src/ProjectAssistant.Platform/Model/ProjectInfo.cs:48-57 | a null file leaves everything unset; otherwise the name is the file name without its extension and the path is the full path |
| Model.ProjectInfo.GetAssemblyInfo | scr/ProjectAssistant.Platform/Helper/VSProjectHelper.cs:213-251 | only the three version fields change, to what the AssemblyInfo read function gives; the exception that escapes is returned |
| Model.AssemblyInfoScansFile | scr/ProjectAssistant.Platform/Helper/VSProjectHelper.cs:218-248 | when Properties holds an AssemblyInfo.cs of lines, GetAssemblyInfo is exactly the line scan over those lines |
| Model.AssemblyInfoMissing | scr/ProjectAssistant.Platform/Helper/VSProjectHelper.cs:218-223 | without a Properties directory or an AssemblyInfo.cs in it, nothing changes and nothing throws |
| Model.NugetInfo.Empty | scr/ProjectAssistant.Platform/Model/NugetInfo.cs:25-27 | every field is unset and there are no items |
| Model.NugetInfo.BuildNugetVersion | scr/ProjectAssistant.Platform/Helper/VSProjectHelper.cs:125-138 | only NugetVersion changes, to the read function's value; a null path throws ArgumentNull |
| Model.NugetInfo.IncreaseNugetVersion | scr/ProjectAssistant.Platform/Helper/VSProjectHelper.cs:258-276 | NugetVersion and the files are the bump functions' results; the document is saved only when nothing threw |
| Model.IncreaseThenBuild | scr/ProjectAssistant.Platform/Helper/VSProjectHelper.cs:258-276 | a successful bump followed by BuildNugetVersion on the saved file reads the new version, unless the last text child was empty or there is none |
| Model.NewNugetInfo | scr/ProjectAssistant.Platform/Model/NugetInfo.cs:33-44 | a null file reads nothing; otherwise the name is the file name with its extension and the version is what BuildNugetVersion reads; its exception escapes |
| Model.NewRefNugetInfo | src/ProjectAssistant.Platform/Model/RefNugetInfo.cs:21-25 | the base constructor runs, then the name becomes the name of the file's directory; a null file throws NullReference, and a file without a directory throws ArgumentNull |
| ProjectController.ChangeVersionInLine | src/ProjectAssistant.Platform/Controller/ProjectController.cs:237-243 | specification function with no contract of its own: the rewrite of one line; its contract is in ChangeVersionInLineReplaces and ChangeVersionInLineReadsBack |
| ProjectController.ChangeVersionInLineReplaces | src/ProjectAssistant.Platform/Controller/ProjectController.cs:237-243 | the old version is what ReadAsemblyVersion reads; an unreadable line or an empty literal is an error; otherwise every occurrence of it in the line is replaced |
| ProjectController.ChangeVersionInLineReadsBack | src/ProjectAssistant.Platform/Controller/ProjectController.cs:237-243 | a rewritten line reads back as the new version when that holds no quote (round trip) |
| ProjectController.MarkedFeedsSomeField | src/ProjectAssistant.Platform/Controller/ProjectController.cs:196-212 | UpVersion rewrites exactly the lines GetAssemblyInfo reads a version from |
| ProjectController.UpVersionLines | src/ProjectAssistant.Platform/Controller/ProjectController.cs:196-218 | specification function with no contract of its own: the lines UpVersion writes; its contract is in UpVersionLinesOk, UpVersionLinesFailsAt and UpVersionThenRead |
| ProjectController.UpVersionLinesOk | src/ProjectAssistant.Platform/Controller/ProjectController.cs:196-218 | the rewrite succeeds exactly when every marked line can be rewritten; then each marked line is rewritten in place and every other line is kept |
| ProjectController.UpVersionLinesFailsAt | src/ProjectAssistant.Platform/Controller/ProjectController.cs:214-218 | the error is the one from the first marked line that cannot be rewritten |
| ProjectController.UpVersionThenRead | src/ProjectAssistant.Platform/Controller/ProjectController.cs:187-229 | after UpVersion, every marked line reads back as the new version |
| ProjectController.UpVersion | src/ProjectAssistant.Platform/Controller/ProjectController.cs:187-229 | the file after the method is what the line rewrite gives; an unreadable file or a failing line leaves it unwritten |
| ProjectController.CollectMarked | src/ProjectAssistant.Platform/Controller/ProjectController.cs:196-212 | the first loop lists exactly the positions of the marked lines, in increasing order |
| ProjectController.RewriteMarked | src/ProjectAssistant.Platform/Controller/ProjectController.cs:214-218 | the in-place loop over the array leaves exactly the rewritten lines, or stops with the rewrite's error |
| ProjectController.IndicesIncreasing | src/ProjectAssistant.Platform/Controller/ProjectController.cs:196-212 | the listed positions strictly increase |
| ProjectController.IndexListed | src/ProjectAssistant.Platform/Controller/ProjectController.cs:196-212 | every marked position is listed |
| ProjectController.UpVersionEachStops | src/ProjectAssistant.Platform/Controller/ProjectController.cs:137-144 | once one AssemblyInfo.cs has failed, the files after it are not touched |
| ProjectController.UpVersionEachFrame | src/ProjectAssistant.Platform/Controller/ProjectController.cs:137-144 | rewriting a list of files changes no other file and creates or removes none |
| ProjectController.UpdateAssemblyTouchesOnlyAssemblyInfo | src/ProjectAssistant.Platform/Controller/ProjectController.cs:122-157 | only the Properties AssemblyInfo.cs beside the project can change, and nothing changes for an empty version |
| ProjectController.UpdateAssemblyVersion | src/ProjectAssistant.Platform/Controller/ProjectController.cs:122-157 | nothing happens unless the project file exists; a missing Properties directory throws DirectoryNotFound, and a Properties directory without AssemblyInfo.cs throws "No assembly file"; otherwise each AssemblyInfo.cs found is rewritten, when the version is not empty |
| ProjectController.UpVersionFiles | src/ProjectAssistant.Platform/Controller/ProjectController.cs:137-144 | the loop rewrites each file in turn when the version is not empty, and the first failure escapes |
| ProjectController.IncreaseOutcome | src/ProjectAssistant.Platform/Controller/ProjectController.cs:79-80 | specification function with no contract of its own: the body of IncreaseVersion's loop for one project; its contract is in IncreaseOutcomeReadsBack and IncreaseVersion |
| ProjectController.IncreaseOutcomeReadsBack | src/ProjectAssistant.Platform/Controller/ProjectController.cs:79-80 | when the Properties AssemblyInfo.cs is listed once and every marked line can be rewritten to a non-empty version free of quotes, the project's turn records no error, the file holds the rewritten lines, and each version field reads the new version if a rewritten line feeds it and keeps its value otherwise |
| ProjectController.UpdateRewritesAssemblyInfo | src/ProjectAssistant.Platform/Controller/ProjectController.cs:133-144 | with the project file present, its Properties directory listed and the AssemblyInfo.cs in it listed once, a non-empty version makes UpdateAssemblyVersion exactly one UpVersion of that file |
| ProjectController.RewrittenLinesRead | src/ProjectAssistant.Platform/Controller/ProjectController.cs:187-229 | when every marked line can be rewritten to a version free of quotes, the rewrite succeeds, GetAssemblyInfo's scan of the rewritten lines throws nothing, and each field reads the new version if a rewritten line feeds it and keeps its value otherwise (round trip of UpVersion and GetAssemblyInfo) |
| ProjectController.IncreaseVersion | src/ProjectAssistant.Platform/Controller/ProjectController.cs:68-97 | one result per selected project, in order, holding that project and the message of the exception that stopped it; each project starts from the files the previous ones left; a project's versions at the end are those of its last turn, and a turn starts from the project's versions before the batch on its first turn and from its previous turn's outcome otherwise; no project's path, name, items or RefVersion changes |
| ProjectController.BuildErrors | src/ProjectAssistant.Platform/Controller/ProjectController.cs:164-180 | specification function with no contract of its own: the messages BuildNuget collects; its contract is in BuildErrorsAreFailures |
| ProjectController.BuildErrorsAreFailures | src/ProjectAssistant.Platform/Controller/ProjectController.cs:164-180 | the k-th error message is "{Name}: {message}" for the k-th project whose build threw, one per failing build |
| ProjectController.BuildNuget | src/ProjectAssistant.Platform/Controller/ProjectController.cs:164-180 | the loop collects exactly those messages, in project order |
| ProjectController.ProjectFiles | src/ProjectAssistant.Platform/Controller/ProjectController.cs:43-50 | specification function with no contract of its own: the project files GetItems finds, folder by folder; its contract is in ProjectFilesAre and ProjectFilesUnderRoot |
| ProjectController.ProjectFilesAre | src/ProjectAssistant.Platform/Controller/ProjectController.cs:43-50 | a file is found exactly when it matches the filter and lies directly in one of the folders |
| ProjectController.ProjectFilesUnderRoot | src/ProjectAssistant.Platform/Controller/ProjectController.cs:40-50 | the folders are the directories strictly below the root, so a project directly in the root is never found |
| ProjectController.BuildProjectInfo | src/ProjectAssistant.Platform/Controller/ProjectController.cs:104-114 | one new project per file, with the name and path of the file and its versions read; the first failing read escapes |
| ProjectController.GetItems | src/ProjectAssistant.Platform/Controller/ProjectController.cs:35-60 | a missing root throws DirectoryNotFound; otherwise the projects of every folder below the root, folder by folder, each built from its file |
| ReferenceAssemblyController.AssemblyNames | scr/ProjectAssistant.Platform/Controller/ReferenceAssemblyController.cs:45 | the filter becomes at least one trimmed name, and no name holds a comma |
| ReferenceAssemblyController.AssemblyNamesOfJoin | scr/ProjectAssistant.Platform/Controller/ReferenceAssemblyController.cs:45 | trimmed, comma-free names joined with commas are read back as the same names |
| ReferenceAssemblyController.AssemblyPath | scr/ProjectAssistant.Platform/Controller/ReferenceAssemblyController.cs:49 | a non-empty name is combined under the root |
| ReferenceAssemblyController.IsReferenceProject | scr/ProjectAssistant.Platform/Controller/ReferenceAssemblyController.cs:162-176 | specification function with no contract of its own: whether a manifest consumes the assembly; its contract is in ReferenceProjectRefers |
| ReferenceAssemblyController.ReferenceProjectRefers | scr/ProjectAssistant.Platform/Controller/ReferenceAssemblyController.cs:162-176 | IsReferenceProject throws exactly when GetReferenceVersion does; a consumer has a reference naming the assembly; a manifest without one is not a consumer |
| ReferenceAssemblyController.UsedFiles | scr/ProjectAssistant.Platform/Controller/ReferenceAssemblyController.cs:58-65 | specification function with no contract of its own: the consumers among the project files; its contract is in UsedFilesAre |
| ReferenceAssemblyController.UsedFilesAre | scr/ProjectAssistant.Platform/Controller/ReferenceAssemblyController.cs:58-65 | the consumer scan fails exactly when some candidate cannot be read, and otherwise keeps exactly the consumers |
| ReferenceAssemblyController.ReferenceVersionsAre | scr/ProjectAssistant.Platform/Controller/ReferenceAssemblyController.cs:184-193 | the consumers' versions read fail exactly when one cannot be read, and otherwise hold each file's version at its position |
| ReferenceAssemblyController.BuildConsumer | scr/ProjectAssistant.Platform/Controller/ReferenceAssemblyController.cs:201-208 | a new consumer node is named after the file, and its RefVersion is the version the file references |
| ReferenceAssemblyController.BuildItemInfo | scr/ProjectAssistant.Platform/Controller/ReferenceAssemblyController.cs:184-193 | one consumer node per file, in order; the first exception escapes |
| ReferenceAssemblyController.BuildReferAssemblyInfo | scr/ProjectAssistant.Platform/Controller/ReferenceAssemblyController.cs:143-154 | the assembly node has the assembly's name, the combined path and one consumer node per file |
| ReferenceAssemblyController.ReferenceGroups | scr/ProjectAssistant.Platform/Controller/ReferenceAssemblyController.cs:47-78 | specification function with no contract of its own: the groups GetItems reports, name by name; its contract is in ReferenceGroupsAre and ReferenceGroupsFrom |
| ReferenceAssemblyController.ReferenceGroupsAre | scr/ProjectAssistant.Platform/Controller/ReferenceAssemblyController.cs:35-82 | the groups fail exactly when some project cannot be read; each group is a filter name with its (non-empty) consumers, and every name with consumers has a group |
| ReferenceAssemblyController.GetItems | scr/ProjectAssistant.Platform/Controller/ReferenceAssemblyController.cs:35-82 | nothing for an empty filter or a missing root; otherwise one node per group, in filter order, holding its consumers in enumeration order |
| ReferenceAssemblyController.ReferenceGroupsFrom | scr/ProjectAssistant.Platform/Controller/ReferenceAssemblyController.cs:67-70 | one more name adds its group when it has consumers, and its exception ends the whole scan |
| ReferenceAssemblyController.UsedAreReferenced | scr/ProjectAssistant.Platform/Controller/ReferenceAssemblyController.cs:58-70 | every consumer found can have its version read |
| ReferenceAssemblyController.CollectUsed | scr/ProjectAssistant.Platform/Controller/ReferenceAssemblyController.cs:58-65 | the inner loop gives exactly the consumer scan |
| ReferenceAssemblyController.IncreaseVersion | scr/ProjectAssistant.Platform/Controller/ReferenceAssemblyController.cs:90-130 | one result per consumer of each selected node, in order, carrying the node's name and the error of that consumer's rewrite; each rewrite starts from the files the previous one left |
| ReferenceAssemblyController.ChangeConsumer | scr/ProjectAssistant.Platform/Controller/ReferenceAssemblyController.cs:108 | the call on a path and a name that may be null: its effect is the consumer-change function |
| ReferenceAssemblyController.ConsumerErrorIff | scr/ProjectAssistant.Platform/Controller/ReferenceAssemblyController.cs:108-117 | a consumer's result has no error exactly when the rewrite neither threw nor found the same version; the not-changed message appears exactly in the second case |
| ReferenceAssemblyController.ConsumerReadsBack | scr/ProjectAssistant.Platform/Controller/ReferenceAssemblyController.cs:108 | a rewrite that did not throw leaves the consumer reading the requested version and touches no other file |
| ReferenceAssemblyController.ChangeEffectsTouchOnlyConsumers | scr/ProjectAssistant.Platform/Controller/ReferenceAssemblyController.cs:96-120 | a batch changes only the manifests of its consumers |
| ReferenceAssemblyController.ConsumerTouchesOnly | scr/ProjectAssistant.Platform/Controller/ReferenceAssemblyController.cs:108 | one rewrite leaves every other file as it was |
| ReferenceNugetController.IsReferenceNuget | scr/ProjectAssistant.Platform/Controller/ReferenceNugetController.cs:224-246 | specification function with no contract of its own: the config of a directory that lists the package; its contract is in ReferenceNugetIff |
| ReferenceNugetController.ReferenceNugetIff | scr/ProjectAssistant.Platform/Controller/ReferenceNugetController.cs:224-246 | a directory is a consumer exactly when the first config in it lists a package with the name, and that config is the one reported |
| ReferenceNugetController.UsedConfigsAre | scr/ProjectAssistant.Platform/Controller/ReferenceNugetController.cs:64-72 | the scan fails exactly when some directory cannot be examined, and otherwise holds exactly the configs reported |
| ReferenceNugetController.CollectConfigs | scr/ProjectAssistant.Platform/Controller/ReferenceNugetController.cs:64-72 | the inner loop gives exactly that scan |
| ReferenceNugetController.BuildRefNugetInfo | scr/ProjectAssistant.Platform/Controller/ReferenceNugetController.cs:271-278 | a consumer node is named after its directory, with RefVersion the version the config pins |
| ReferenceNugetController.BuildItemInfo | scr/ProjectAssistant.Platform/Controller/ReferenceNugetController.cs:254-263 | one consumer node per config, in order; the first exception escapes |
| ReferenceNugetController.BuildReferInfo | scr/ProjectAssistant.Platform/Controller/ReferenceNugetController.cs:201-212 | the package node has the package's name, the combined path and one consumer node per config |
| ReferenceNugetController.NugetGroupsAre | scr/ProjectAssistant.Platform/Controller/ReferenceNugetController.cs:40-89 | the groups succeed exactly when every name can be read; each group is a name with its consumers, and every name with consumers has a group |
| ReferenceNugetController.NugetGroupsFrom | scr/ProjectAssistant.Platform/Controller/ReferenceNugetController.cs:74-77 | one more name adds its group when it has consumers, and its exception ends the scan |
| ReferenceNugetController.CollectNugets | scr/ProjectAssistant.Platform/Controller/ReferenceNugetController.cs:46-89 | nothing for an empty filter or a missing root; otherwise one node per group, in filter order |
| ReferenceNugetController.DependentFileTouchesOnly | scr/ProjectAssistant.Platform/Controller/ReferenceNugetController.cs:127-135 | one .nuspec rewrite changes no other file and creates none |
| ReferenceNugetController.DependentPassTouchesOnly | scr/ProjectAssistant.Platform/Controller/ReferenceNugetController.cs:121-137 | a pass changes only the .nuspec files it is given |
| ReferenceNugetController.DependentFileTargets | scr/ProjectAssistant.Platform/Controller/ReferenceNugetController.cs:127-135 | a successful rewrite sets every dependency on the package to the new version and keeps every other dependency |
| ReferenceNugetController.ChangeDependentNuget | scr/ProjectAssistant.Platform/Controller/ReferenceNugetController.cs:110-140 | for each selected node, the .nuspec files under the root are listed again and rewritten one by one, with their failures swallowed; a missing root is logged, and then the listing throws |
| ReferenceNugetController.ChangeRefNuget | scr/ProjectAssistant.Platform/Controller/ReferenceNugetController.cs:148-188 | one result per consumer of each selected node, in order, with the node's name and the error of that rewrite |
| ReferenceNugetController.RefConsumerTouchesOnly | scr/ProjectAssistant.Platform/Controller/ReferenceNugetController.cs:165 | a consumer's rewrite touches only files in its own directory and creates none |
| ReferenceNugetController.RefChangeEffectsTouchOnly | scr/ProjectAssistant.Platform/Controller/ReferenceNugetController.cs:153-178 | the rewrites touch only the consumers' directories |
| ReferenceNugetController.RefConsumerReadsBack | scr/ProjectAssistant.Platform/Controller/ReferenceNugetController.cs:165 | a consumer whose rewrite returns true pins the package at the new version afterwards |
| ReferenceNugetController.Controller.constructor | scr/ProjectAssistant.Platform/Controller/ReferenceNugetController.cs:31 | no settings have been kept yet |
| ReferenceNugetController.Controller.GetItems | scr/ProjectAssistant.Platform/Controller/ReferenceNugetController.cs:40-89 | the settings are kept, then the groups are built as CollectNugets states |
| ReferenceNugetController.Controller.IncreaseVersion | scr/ProjectAssistant.Platform/Controller/ReferenceNugetController.cs:97-102 | without kept settings it throws NullReference; otherwise the dependents pass, then the consumers, with the consumer rewrite starting from the files the dependents pass left |
| NugetController.FoundNuspecs | src/ProjectAssistant.Platform/Controller/NugetController.cs:39-50 | specification function with no contract of its own: the manifests GetItems builds nodes from; its contract is in FoundNuspecsAre, RootNuspecSkipped and NuspecFoundTwice |
| NugetController.Searches | src/ProjectAssistant.Platform/Controller/NugetController.cs:43-50 | each folder is searched recursively with the filter |
| NugetController.FoundNuspecsAre | src/ProjectAssistant.Platform/Controller/NugetController.cs:33-61 | a manifest is found exactly when it matches the filter and lies below some directory that lies below the root |
| NugetController.RootNuspecSkipped | src/ProjectAssistant.Platform/Controller/NugetController.cs:41-45 | a manifest directly in the root is never found |
| NugetController.NuspecFoundTwice | src/ProjectAssistant.Platform/Controller/NugetController.cs:43-50 | a manifest below two nested folders under the root is found at least twice |
| NugetController.BuildNugetInfo | src/ProjectAssistant.Platform/Controller/NugetController.cs:109-112 | one package node per manifest, in order, each with its version read; the first exception escapes |
| NugetController.GetItems | src/ProjectAssistant.Platform/Controller/NugetController.cs:33-61 | the package nodes are built exactly from the manifests found, folder by folder |
| NugetController.BumpFailureUntouched | src/ProjectAssistant.Platform/Controller/NugetController.cs:83-91 | a package whose bump throws leaves every file as it was; a successful one rewrites only its manifest |
| NugetController.SucceededListed | src/ProjectAssistant.Platform/Controller/NugetController.cs:85-86 | a package is listed exactly when its bump did not throw |
| NugetController.IncreaseVersion | src/ProjectAssistant.Platform/Controller/NugetController.cs:69-102 | a result only for each package whose bump did not throw, in selection order, none with an error; one failure does not stop the next package; no package's path, name, items or RefVersion changes |
| CheckTree.Project.Empty | scr/ProjectAssistantApp/Model/Project.cs:74-76 | unchecked, no children, no parent, no data |
| CheckTree.Project.constructor | scr/ProjectAssistantApp/Model/Project.cs:82-90 | unchecked and childless, with the name, path, versions and items of the data |
| CheckTree.Project.Ref | src/ProjectAssistantApp/Model/RefProject.cs:35-38 | Project(data), and the parent is kept |
| CheckTree.Project.AddItem | src/ProjectAssistantApp/ViewModels/ReferenceAssMgrViewModel.cs:339 | the child becomes the last one, the tree stays well formed, and only the node's children and footprint may change |
| CheckTree.Project.SetIsChecked | scr/ProjectAssistantApp/Model/Project.cs:22-30 | the node takes the value; a definite value is forced on every node below it, and an indeterminate one leaves them as they were |
| CheckTree.Project.UpdateChild | scr/ProjectAssistantApp/Model/Project.cs:136-150 | a definite value reaches every node below this one through the children's setters, an indeterminate one changes nothing, and the node's own state is left alone |
| CheckTree.Project.Refresh | scr/ProjectAssistantApp/Model/Project.cs:97-128 | with children, the node becomes checked when all are (forced below it), unchecked when none is (forced below it), and indeterminate otherwise; without children nothing changes |
| CheckTree.Project.RefChecked | src/ProjectAssistantApp/Model/RefProject.cs:57-60 | the parent, if any, refreshes as Refresh states |
| CheckTree.CheckedCount | scr/ProjectAssistantApp/Model/Project.cs:110-128 | the number of checked children is at most the number of children |
| CheckTree.CheckedCountAll | scr/ProjectAssistantApp/Model/Project.cs:110-128 | the count equals the number of children exactly when every child is checked |
| CheckTree.CheckedCountNone | scr/ProjectAssistantApp/Model/Project.cs:110-128 | the count is zero exactly when no child is checked |
| CheckTree.Nuget.constructor | scr/ProjectAssistantApp/Model/Nuget.cs:59-65 | unchecked and childless, with the name, path, version and items of the data |
| CheckTree.Nuget.Ref | scr/ProjectAssistantApp/Model/RefNuget.cs:20-23 | Nuget(data), and the parent is kept |
| CheckTree.Nuget.AddItem | scr/ProjectAssistantApp/ViewModels/ReferenceNugetMgrViewModel.cs:339 | the child becomes the last one, the tree stays well formed, and only the node's children and footprint may change |
| CheckTree.Nuget.SetIsChecked | scr/ProjectAssistantApp/Model/Nuget.cs:44-53 | the node takes the value; a definite value is forced on every node below it, and an indeterminate one leaves them as they were |
| CheckTree.Nuget.UpdateChild | scr/ProjectAssistantApp/Model/Nuget.cs:105-119 | a definite value reaches every node below this one through the children's setters, an indeterminate one changes nothing, and the node's own state is left alone |
| CheckTree.Nuget.Refresh | scr/ProjectAssistantApp/Model/Nuget.cs:70-99 | all checked gives checked, none checked gives unchecked (both forced below it), otherwise indeterminate |
| CheckTree.Nuget.RefChecked | scr/ProjectAssistantApp/Model/RefNuget.cs:58-61 | the parent, if any, refreshes |
| CheckTree.NugetCheckedCount | scr/ProjectAssistantApp/Model/Nuget.cs:81-99 | the number of checked children is at most the number of children |
| CheckTree.NugetCheckedCountAll | scr/ProjectAssistantApp/Model/Nuget.cs:81-99 | the count equals the number of children exactly when all are checked |
| CheckTree.NugetCheckedCountNone | scr/ProjectAssistantApp/Model/Nuget.cs:81-99 | the count is zero exactly when none is checked |
| Validation.AcceptsExactly | scr/ProjectAssistantApp/Validation/StringRequireValidatorAttribute.cs:47-69 | without the white-space flag, a value is accepted exactly when it is a non-empty string; with it, exactly when it is a string holding a character that is not white space |
| Validation.WhiteSpaceCheckStricter | scr/ProjectAssistantApp/Validation/StringRequireValidatorAttribute.cs:62-66 | the flag only rejects more, namely exactly the non-empty all-white-space strings |
| Validation.StringRequireValidator.constructor | scr/ProjectAssistantApp/Validation/StringRequireValidatorAttribute.cs:19-22 | the message is kept, the white-space flag is off and no error is set |
| Validation.StringRequireValidator.IsValid | scr/ProjectAssistantApp/Validation/StringRequireValidatorAttribute.cs:47-69 | the verdict is the acceptance predicate; a rejection sets the error message to the required message, and an acceptance leaves it |
| CollectionExtension.Collection.Add | src/ProjectAssistantApp/Extension/CollectionExtension.cs:18 | the item becomes the last element |
| CollectionExtension.AddRange | src/ProjectAssistantApp/Extension/CollectionExtension.cs:14-20 | the target keeps its elements as a prefix and is followed by the source, in order |
| Documents.FileNameWithoutExtension | src/ProjectAssistant.Platform/Model/ProjectInfo.cs:55 | the file name up to its last '.', or the whole name when it has none |
| Documents.DirectoryName | src/ProjectAssistant.Platform/Model/RefNugetInfo.cs:23 | the parent exists exactly when the path has at least two segments, and then the parent and the file name rebuild the path |
| Documents.FilesUnder | scr/ProjectAssistant.Platform/Controller/ReferenceAssemblyController.cs:57 | a recursive search finds exactly the files strictly below the directory whose names match |
| Documents.DirectoriesUnder | scr/ProjectAssistant.Platform/Controller/ReferenceNugetController.cs:63 | the recursive enumeration gives exactly the directories strictly below the root |
| Wrappers.ErrorText | src/ProjectAssistant.Platform/Controller/ProjectController.cs:85 | a caught exception gives its message, and no exception gives no error |
| Text.ParseInt32 | scr/ProjectAssistant.Platform/Helper/VersionHelper.cs:20 | int.Parse gives an Int32, or fails with FormatException or OverflowException |
| Text.ParseIntToString | scr/ProjectAssistant.Platform/Helper/VersionHelper.cs:20 | a printed Int32 parses back to itself |
| Text.Replace | src/ProjectAssistant.Platform/Controller/ProjectController.cs:241 | string.Replace throws exactly for an empty old value, and otherwise replaces every occurrence from left to right |
| Text.SplitJoin | scr/ProjectAssistant.Platform/Helper/VersionHelper.cs:19-21 | pieces free of the separator, joined and split again, come back unchanged |
| Text.JoinSplit | scr/ProjectAssistant.Platform/Helper/VersionHelper.cs:19-21 | splitting and joining on the same separator gives back the text |
| Text.TrimProperties | scr/ProjectAssistant.Platform/Controller/ReferenceAssemblyController.cs:45 | Trim's result has no white space at either end, adds no character, and leaves a trimmed string alone |

## Left out

- I/O is a parameter: the directory and file enumerations and the file contents are given as the `Disk` state.
  Reading and writing files replaces entries of a map.
- XML is reduced to the element lists the readers look at: References, their children, packages, versions and dependencies.
  Parsing, encodings, attribute order and formatting on save are not modelled.
  Reading a text file as XML fails; in this model, reading an XML document as lines also fails.
- Case-insensitive comparison (`CurrentCultureIgnoreCase`) folds ASCII letters only; culture-specific folding is not modelled.
- Logging (`Logger.Info`/`Error`) is left out; a logged-and-rethrown exception is the same exception.
- MSBuild (MSBuildHelper.cs) is a foreign tool: ProjectController.BuildNuget takes the exception each build threw, if any, as a parameter.
- `Path.Combine` is modelled for one relative name; a rooted or multi-segment name is not modelled.
  `DirectoryInfo.Name` of a drive root is not modelled either.
- A null `VersionInfo`, or a null `Version` in it, is not modelled. As these are passed to the controllers, they are non-null strings or `Option`s where the code tests for null.
- ResultInfo is a datatype: the source fills `Error` and `SourceProjectName` before anyone else holds the object.
- ReferAssemblyInfo is folded into ProjectInfo, and RefNugetInfo into NugetInfo; each adds only `RefVersion`.
- RefProject is folded into CheckTree.Project, and RefNuget into CheckTree.Nuget. Children are nodes of the same class.
  `ICheckedNode`, the mixed children of `CheckedNodeBase` and `new Nuget Parent` become `Option<Project>` and `Option<Nuget>`.
- Property-change notifications (`OnPropertyChanged`) and ObservableCollection change events are not modelled.
- The validator attribute's `Order`, `IsIgnoreWhenHasError`, `ValidateWhileDisabled` and `GuardProperty` are plain data that IsValid does not read, so they are not modelled.
  The regular-expression validator is reduced to VersionHelper.IsVersionFormat.
- VersionHelper.IsVersionFormat: accepts ASCII digits only and no trailing newline. The .NET pattern's `\d` also matches other Unicode decimal digits, and its `$` also matches before a final `\n`; VersionFormatChars holds for those too, but the model does not state it.
- The view models, the shell, configuration and the header are not part of this model. Only the lines that add children to the check tree are cited.
- ProjectController.IncreaseVersion: `pr.Refresh()` after GetAssemblyInfo (ProjectController.cs:81) comes from the base class ItemInfo, which is not part of this model.
  It is taken to change none of the modelled fields.
- Directory searches (`Directory.GetFiles`, `Directory.GetDirectories`, `DirectoryInfo.GetFiles`) match names case-sensitively in Documents.Matches.
  On Windows the match ignores case, so `assemblyinfo.cs` or `X.CSPROJ` would be found there and is not found here.
- The comment test of GetAssemblyInfo and UpVersion (`StartsWith("//")`) is an ordinal prefix test in VsProjectHelper.IsComment.
  The source uses the culture-sensitive overload; for the ASCII prefix "//" the two differ only on strings that start with ignorable characters, which are not modelled.
- A null `FilterSetting.RootDir` is not modelled: the root is always a path, so `Directory.Exists(null)` returning false and `Path.Combine(null, …)` throwing are not modelled.
- ProjectController.IncreaseOutcomeReadsBack: requires the file listing to name no file twice, as a real directory listing does; a listing with repeats would rewrite the AssemblyInfo.cs once per repeat.
- NugetController.IncreaseVersion: does not state each package's final NugetVersion separately. It is part of the ghost outcomes.
- ReferenceNugetController.RefConsumerReadsBack: requires that the config is not itself a `*.csproj`. Otherwise the HintPath rewrite beside it could rewrite the config.

## Findings

| source | as written | input that shows it | evidently intended | confidence | as-written member | corrected member |
|---|---|---|---|---|---|---|
| scr/ProjectAssistant.Platform/Helper/VSProjectHelper.cs:304-326 | `Equals(sourceList, anotherList)` compares the counts, then checks that every element of the first list occurs somewhere in the second | `["a","a"]` against `["a","b"]` gives true; swapping the arguments gives false | the same elements, each as often (multiset equality), which is symmetric | not executed | VsProjectHelper.ListEqualsNotSymmetric | VsProjectHelper.SameElementsSymmetric |
