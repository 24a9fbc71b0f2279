/** ReferenceAssemblyController: for each assembly named in the filter, the
    projects under the root that reference it (with the version they reference),
    and the rewriting of that version in every consumer that was selected. */
module ReferenceAssemblyController {
  import opened Wrappers
  import opened Seqs
  import opened Text
  import opened Documents
  import opened VsProjectHelper
  import opened Model

  /** The manifests searched for consumers, in every directory under the root. */
  const ProjectPattern: string := "*.csproj"

  // =====================================================================
  // The filter

  /** The names of the filter: its comma-separated pieces, each trimmed. */
  function AssemblyNames(filter: string): (names: seq<string>)
    ensures |names| >= 1
    ensures forall i :: 0 <= i < |names| ==> ',' !in names[i] && IsTrimmed(names[i])
  {
    var pieces := Split(filter, ',');
    var names := seq(|pieces|, i requires 0 <= i < |pieces| => Trim(pieces[i]));
    assert forall i :: 0 <= i < |pieces| ==> ',' !in pieces[i];
    forall i | 0 <= i < |names|
      ensures ',' !in names[i] && IsTrimmed(names[i])
    {
      TrimProperties(pieces[i]);
    }
    names
  }

  /** Names free of commas and of surrounding white space, joined by commas, read back as
      the same names. */
  lemma AssemblyNamesOfJoin(names: seq<string>)
    requires |names| >= 1
    requires forall i :: 0 <= i < |names| ==> ',' !in names[i] && IsTrimmed(names[i])
    ensures AssemblyNames(Join(',', names)) == names
  {
    SplitJoin(names, ',');
    var r := AssemblyNames(Join(',', names));
    forall i | 0 <= i < |names|
      ensures r[i] == names[i]
    {
      TrimProperties(names[i]);
    }
  }

  /** Path.Combine(RootDir, name): an empty name leaves the root as it is. */
  function AssemblyPath(rootDir: FilePath, name: string): (r: FilePath)
    ensures name != "" ==> DirectoryName(r) == (if |rootDir| == 0 then None else Some(rootDir)) && FileName(r) == name
  {
    if name == "" then rootDir else Combine(rootDir, name)
  }

  // =====================================================================
  // Consumers (IsReferenceProject)

  /** IsReferenceProject: the manifest references the assembly with a non-empty version;
      an exception of GetReferenceVersion escapes. */
  function IsReferenceProject(files: Files, filePath: FilePath, assemblyName: string): Result<bool>
  {
    var v :- GetReferenceVersion(files, filePath, assemblyName);
    Ok(v != "")
  }

  /** A consumer has a reference naming the assembly; a manifest with no such reference is
      not one, whatever else it holds. */
  lemma ReferenceProjectRefers(files: Files, filePath: FilePath, assemblyName: string)
    ensures IsReferenceProject(files, filePath, assemblyName).Err? <==> GetReferenceVersion(files, filePath, assemblyName).Err?
    ensures IsReferenceProject(files, filePath, assemblyName) == Ok(true) ==>
      Load(files, filePath).Ok?
      && exists k :: 0 <= k < |files[filePath].doc.references| && RefersTo(files[filePath].doc.references[k], assemblyName)
    ensures Load(files, filePath).Ok?
      && (forall k :: 0 <= k < |files[filePath].doc.references| ==> !RefersTo(files[filePath].doc.references[k], assemblyName))
      ==> IsReferenceProject(files, filePath, assemblyName) == Ok(false)
  {
    if Load(files, filePath).Ok? {
      var refs := files[filePath].doc.references;
      var k := FirstIndex(refs, (x: Reference) => RefersTo(x, assemblyName));
      if k >= 0 {
        assert RefersTo(refs[k], assemblyName);
      }
    }
  }

  /** IsReferenceProject as a step of the scan: the file itself when it is a consumer. */
  function ConsumerStep(files: Files, filePath: FilePath, assemblyName: string): Result<Option<FilePath>>
  {
    var used :- IsReferenceProject(files, filePath, assemblyName);
    Ok(if used then Some(filePath) else None)
  }

  /** ConsumerStep as a function of the file. */
  function ConsumerFinder(files: Files, assemblyName: string): FilePath -> Result<Option<FilePath>>
  {
    f => ConsumerStep(files, f, assemblyName)
  }

  /** The consumers among `candidates`, in their order; the first exception escapes. */
  function UsedFiles(files: Files, candidates: seq<FilePath>, assemblyName: string): Result<seq<FilePath>>
  {
    CollectSome(candidates, ConsumerFinder(files, assemblyName))
  }

  /** UsedFiles fails exactly when some candidate cannot be read, and otherwise keeps exactly
      the consumers. */
  lemma UsedFilesAre(files: Files, candidates: seq<FilePath>, assemblyName: string)
    ensures UsedFiles(files, candidates, assemblyName).Ok? <==>
      forall f :: f in candidates ==> IsReferenceProject(files, f, assemblyName).Ok?
    ensures UsedFiles(files, candidates, assemblyName).Ok? ==>
      forall f :: f in UsedFiles(files, candidates, assemblyName).value <==>
        f in candidates && IsReferenceProject(files, f, assemblyName) == Ok(true)
  {
    var finder := ConsumerFinder(files, assemblyName);
    CollectSomeAre(candidates, finder);
    if UsedFiles(files, candidates, assemblyName).Ok? {
      var used := UsedFiles(files, candidates, assemblyName).value;
      forall f
        ensures f in used <==> f in candidates && IsReferenceProject(files, f, assemblyName) == Ok(true)
      {
        if f in candidates && IsReferenceProject(files, f, assemblyName) == Ok(true) {
          assert finder(f) == Ok(Some(f));
        }
      }
    }
  }

  // =====================================================================
  // Building the tree (BuildReferAssemblyInfo, BuildItemInfo)

  /** Reading each consumer's version, as a function of the file. */
  function VersionReader(files: Files, assemblyName: string): FilePath -> Result<string>
  {
    f => GetReferenceVersion(files, f, assemblyName)
  }

  /** The versions the consumers reference, in order; the first exception escapes. */
  function ReferenceVersions(files: Files, sourceItem: seq<FilePath>, assemblyName: string): Result<seq<string>>
  {
    MapResult(sourceItem, VersionReader(files, assemblyName))
  }

  /** ReferenceVersions fails exactly when some file cannot be read; otherwise it holds each
      file's version at its position. */
  lemma ReferenceVersionsAre(files: Files, sourceItem: seq<FilePath>, assemblyName: string)
    ensures ReferenceVersions(files, sourceItem, assemblyName).Ok? <==>
      forall f :: f in sourceItem ==> GetReferenceVersion(files, f, assemblyName).Ok?
    ensures ReferenceVersions(files, sourceItem, assemblyName).Ok? ==>
      var vs := ReferenceVersions(files, sourceItem, assemblyName).value;
      |vs| == |sourceItem| && forall j :: 0 <= j < |vs| ==> GetReferenceVersion(files, sourceItem[j], assemblyName) == Ok(vs[j])
  {
    MapResultAre(sourceItem, VersionReader(files, assemblyName));
  }

  /** A consumer node built from manifest `f`: named after the file, no items, no versions of
      its own, and RefVersion the version `f` references. */
  ghost predicate ConsumerOf(files: Files, c: ProjectInfo, f: FilePath, assemblyName: string)
    reads c
  {
    c.name == Some(FileNameWithoutExtension(f)) && c.path == Some(f) && c.items == []
    && c.Versions() == AssemblyVersions(None, None, None)
    && c.refVersion.Some? && GetReferenceVersion(files, f, assemblyName) == Ok(c.refVersion.value)
  }

  /** BuildReferAssemblyInfo(FileInfo, name): a ReferAssemblyInfo for the file whose
      RefVersion is read from it. */
  method BuildConsumer(disk: Disk, sourceItem: FilePath, assemblyName: string) returns (r: Result<ProjectInfo>)
    ensures r.Ok? <==> GetReferenceVersion(disk.files, sourceItem, assemblyName).Ok?
    ensures r.Err? ==> r.error == GetReferenceVersion(disk.files, sourceItem, assemblyName).error
    ensures r.Ok? ==> fresh(r.value) && ConsumerOf(disk.files, r.value, sourceItem, assemblyName)
  {
    var item := new ProjectInfo(Some(sourceItem));
    var v := GetReferenceVersion(disk.files, sourceItem, assemblyName);
    if v.Err? {
      return Err(v.error);
    }
    item.refVersion := Some(v.value);
    return Ok(item);
  }

  /** BuildItemInfo: a consumer node per file, in order; the first exception escapes. */
  method BuildItemInfo(disk: Disk, sourceItem: seq<FilePath>, assemblyName: string) returns (r: Result<seq<ProjectInfo>>)
    ensures var vs := ReferenceVersions(disk.files, sourceItem, assemblyName);
      (r.Ok? <==> vs.Ok?) && (r.Err? ==> r.error == vs.error)
    ensures r.Ok? ==> (|r.value| == |sourceItem|
      && forall j :: 0 <= j < |sourceItem| ==> ConsumerOf(disk.files, r.value[j], sourceItem[j], assemblyName))
    ensures r.Ok? ==> forall j :: 0 <= j < |r.value| ==> fresh(r.value[j])
  {
    var result: seq<ProjectInfo> := [];
    var i := 0;
    while i < |sourceItem|
      invariant 0 <= i <= |sourceItem| && |result| == i
      invariant forall j :: 0 <= j < i ==> ConsumerOf(disk.files, result[j], sourceItem[j], assemblyName)
      invariant forall j :: 0 <= j < |result| ==> fresh(result[j])
    {
      var item := BuildConsumer(disk, sourceItem[i], assemblyName);
      if item.Err? {
        MapResultAre(sourceItem[..i], VersionReader(disk.files, assemblyName));
        MapResultStop(sourceItem, VersionReader(disk.files, assemblyName), i);
        return Err(item.error);
      }
      result := result + [item.value];
      i := i + 1;
    }
    ReferenceVersionsAre(disk.files, sourceItem, assemblyName);
    return Ok(result);
  }

  /** An assembly and its consumers. */
  datatype Group = Group(name: string, used: seq<FilePath>)

  /** An assembly node for group `g`: named after the assembly, with the path the root and
      the name combine to, and one consumer node per consumer, in order. */
  ghost predicate GroupOf(files: Files, rootDir: FilePath, pr: ProjectInfo, g: Group)
    reads pr, pr.items
  {
    pr.name == Some(g.name) && pr.path == Some(AssemblyPath(rootDir, g.name)) && pr.refVersion == None
    && pr.Versions() == AssemblyVersions(None, None, None)
    && |pr.items| == |g.used|
    && forall j :: 0 <= j < |g.used| ==> ConsumerOf(files, pr.items[j], g.used[j], g.name)
  }

  /** BuildReferAssemblyInfo(name, path, files): the node of an assembly and its consumers. */
  method BuildReferAssemblyInfo(disk: Disk, assemblyName: string, path: FilePath, listItems: seq<FilePath>)
    returns (r: Result<ProjectInfo>)
    ensures var vs := ReferenceVersions(disk.files, listItems, assemblyName);
      (r.Ok? <==> vs.Ok?) && (r.Err? ==> r.error == vs.error)
    ensures r.Ok? ==> (r.value.name == Some(assemblyName) && r.value.path == Some(path) && r.value.refVersion == None
      && r.value.Versions() == AssemblyVersions(None, None, None) && |r.value.items| == |listItems|
      && forall j :: 0 <= j < |listItems| ==> ConsumerOf(disk.files, r.value.items[j], listItems[j], assemblyName))
    ensures r.Ok? ==> fresh(r.value)
    ensures r.Ok? ==> forall j :: 0 <= j < |r.value.items| ==> fresh(r.value.items[j])
  {
    var referenceAssemblys := BuildItemInfo(disk, listItems, assemblyName);
    if referenceAssemblys.Err? {
      return Err(referenceAssemblys.error);
    }
    var asemblyInfo := new ProjectInfo.Empty();
    asemblyInfo.name := Some(assemblyName);
    asemblyInfo.path := Some(path);
    asemblyInfo.items := referenceAssemblys.value;
    return Ok(asemblyInfo);
  }

  // =====================================================================
  // Discovery (GetItems)

  /** The group of one name: its consumers among the project files, when there is one. */
  function AssemblyGroup(files: Files, projects: seq<FilePath>, assemblyName: string): Result<Option<Group>>
  {
    var used :- UsedFiles(files, projects, assemblyName);
    Ok(if |used| > 0 then Some(Group(assemblyName, used)) else None)
  }

  /** AssemblyGroup as a function of the name. */
  function AssemblyGroupFinder(files: Files, projects: seq<FilePath>): string -> Result<Option<Group>>
  {
    assemblyName => AssemblyGroup(files, projects, assemblyName)
  }

  /** The groups GetItems reports: for each name in turn, its consumers among the project
      files, when there is at least one; the first exception escapes. */
  function ReferenceGroups(files: Files, projects: seq<FilePath>, names: seq<string>): Result<seq<Group>>
  {
    CollectSome(names, AssemblyGroupFinder(files, projects))
  }

  /** ReferenceGroups fails exactly when some project file cannot be read for some name;
      otherwise each group is a name with its (non-empty) consumers, and a name with
      consumers has a group. */
  lemma ReferenceGroupsAre(files: Files, projects: seq<FilePath>, names: seq<string>)
    ensures ReferenceGroups(files, projects, names).Ok? <==>
      forall name, f :: name in names && f in projects ==> IsReferenceProject(files, f, name).Ok?
    ensures ReferenceGroups(files, projects, names).Ok? ==>
      (forall g :: g in ReferenceGroups(files, projects, names).value ==>
         g.name in names && |g.used| > 0 && UsedFiles(files, projects, g.name) == Ok(g.used))
      && (forall name :: name in names && UsedFiles(files, projects, name).Ok? && |UsedFiles(files, projects, name).value| > 0 ==>
            exists g :: g in ReferenceGroups(files, projects, names).value && g.name == name)
  {
    var finder := AssemblyGroupFinder(files, projects);
    CollectSomeAre(names, finder);
    forall name | name in names
      ensures finder(name).Ok? <==> forall f :: f in projects ==> IsReferenceProject(files, f, name).Ok?
    {
      UsedFilesAre(files, projects, name);
    }
    if ReferenceGroups(files, projects, names).Ok? {
      var r := ReferenceGroups(files, projects, names).value;
      forall name | name in names && UsedFiles(files, projects, name).Ok? && |UsedFiles(files, projects, name).value| > 0
        ensures exists g :: g in r && g.name == name
      {
        var g := Group(name, UsedFiles(files, projects, name).value);
        assert finder(name) == Ok(Some(g));
        assert g in r;
      }
    }
  }

  /** The nodes GetItems has built for the groups so far. */
  ghost predicate GroupsBuilt(files: Files, rootDir: FilePath, built: seq<ProjectInfo>, groups: seq<Group>)
    reads built, set k, j | 0 <= k < |built| && 0 <= j < |built[k].items| :: built[k].items[j]
  {
    |built| == |groups| && forall k :: 0 <= k < |built| ==> GroupOf(files, rootDir, built[k], groups[k])
  }

  /** GetItems: nothing for an empty filter or a missing root; otherwise one node per named
      assembly that some *.csproj anywhere under the root references with a non-empty
      version, in filter order, holding those consumers in enumeration order. */
  method GetItems(disk: Disk, rootDir: FilePath, referenceAssemblyFilter: Option<string>)
    returns (r: Result<seq<ProjectInfo>>)
    ensures IsNullOrEmpty(referenceAssemblyFilter) || rootDir !in disk.directories ==> r == Ok([])
    ensures !IsNullOrEmpty(referenceAssemblyFilter) && rootDir in disk.directories ==>
      var groups := ReferenceGroups(disk.files, FilesUnder(disk.listing, rootDir, ProjectPattern),
                                    AssemblyNames(referenceAssemblyFilter.value));
      (r.Ok? <==> groups.Ok?) && (r.Err? ==> r.error == groups.error)
      && (r.Ok? ==> GroupsBuilt(disk.files, rootDir, r.value, groups.value))
    ensures r.Ok? ==> forall k :: 0 <= k < |r.value| ==> fresh(r.value[k])
  {
    if IsNullOrEmpty(referenceAssemblyFilter) {
      return Ok([]);
    }
    var assemblyNames := AssemblyNames(referenceAssemblyFilter.value);
    ghost var projects := FilesUnder(disk.listing, rootDir, ProjectPattern);
    var result: seq<ProjectInfo> := [];
    var i := 0;
    while i < |assemblyNames|
      invariant 0 <= i <= |assemblyNames|
      invariant rootDir !in disk.directories ==> result == []
      invariant rootDir in disk.directories ==>
        ReferenceGroups(disk.files, projects, assemblyNames[..i]).Ok?
        && GroupsBuilt(disk.files, rootDir, result, ReferenceGroups(disk.files, projects, assemblyNames[..i]).value)
      invariant forall k :: 0 <= k < |result| ==> fresh(result[k])
    {
      var absoluteFilePath := AssemblyPath(rootDir, assemblyNames[i]);
      if disk.DirectoryExists(rootDir) {
        var step := CollectAssembly(disk, rootDir, absoluteFilePath, assemblyNames, i, result);
        if step.Err? {
          return Err(step.error);
        }
        result := step.value;
      }
      i := i + 1;
    }
    assert assemblyNames[..i] == assemblyNames;
    return Ok(result);
  }

  /** One turn of GetItems' loop when the root exists: the consumers of the i-th name, and
      its node appended when there is one. */
  method CollectAssembly(disk: Disk, rootDir: FilePath, absoluteFilePath: FilePath, names: seq<string>, i: nat,
                         result: seq<ProjectInfo>)
    returns (r: Result<seq<ProjectInfo>>)
    requires i < |names| && rootDir in disk.directories && absoluteFilePath == AssemblyPath(rootDir, names[i])
    requires var projects := FilesUnder(disk.listing, rootDir, ProjectPattern);
      ReferenceGroups(disk.files, projects, names[..i]).Ok?
      && GroupsBuilt(disk.files, rootDir, result, ReferenceGroups(disk.files, projects, names[..i]).value)
    ensures var projects := FilesUnder(disk.listing, rootDir, ProjectPattern);
      var groups := ReferenceGroups(disk.files, projects, names[..i + 1]);
      (r.Ok? <==> groups.Ok?) && (r.Err? ==> ReferenceGroups(disk.files, projects, names) == Err(r.error))
      && (r.Ok? ==> GroupsBuilt(disk.files, rootDir, r.value, groups.value))
    ensures r.Ok? ==> |result| <= |r.value| && forall k :: |result| <= k < |r.value| ==> fresh(r.value[k])
    ensures r.Ok? ==> forall k :: 0 <= k < |result| ==> r.value[k] == result[k]
  {
    ghost var projects := FilesUnder(disk.listing, rootDir, ProjectPattern);
    ghost var prev := ReferenceGroups(disk.files, projects, names[..i]).value;
    ReferenceGroupsFrom(disk.files, projects, names, i);
    var node := AssemblyNode(disk, rootDir, absoluteFilePath, names[i]);
    if node.Err? {
      return Err(node.error);
    }
    if node.value.Some? {
      GroupsBuiltSnoc(disk.files, rootDir, result, prev, node.value.value,
                      AssemblyGroup(disk.files, projects, names[i]).value.value);
      return Ok(result + [node.value.value]);
    }
    assert prev + [] == prev;
    return Ok(result);
  }

  /** The node of one name, when some project file under the root references it. */
  method AssemblyNode(disk: Disk, rootDir: FilePath, absoluteFilePath: FilePath, assemblyName: string)
    returns (r: Result<Option<ProjectInfo>>)
    requires rootDir in disk.directories && absoluteFilePath == AssemblyPath(rootDir, assemblyName)
    ensures var g := AssemblyGroup(disk.files, FilesUnder(disk.listing, rootDir, ProjectPattern), assemblyName);
      (r.Ok? <==> g.Ok?) && (r.Err? ==> r.error == g.error)
      && (r.Ok? ==> (r.value.Some? <==> g.value.Some?))
      && (r.Ok? && r.value.Some? ==> fresh(r.value.value) && GroupOf(disk.files, rootDir, r.value.value, g.value.value))
  {
    var files := disk.AllFiles(rootDir, ProjectPattern).value;
    var usedFiles := CollectUsed(disk, files, assemblyName);
    if usedFiles.Err? {
      return Err(usedFiles.error);
    }
    if |usedFiles.value| > 0 {
      UsedAreReferenced(disk.files, files, assemblyName);
      var built := BuildReferAssemblyInfo(disk, assemblyName, absoluteFilePath, usedFiles.value);
      return Ok(Some(built.value));
    }
    return Ok(None);
  }

  /** A node built for one more group extends the nodes built so far. */
  lemma GroupsBuiltSnoc(files: Files, rootDir: FilePath, built: seq<ProjectInfo>, groups: seq<Group>,
                        node: ProjectInfo, g: Group)
    requires GroupsBuilt(files, rootDir, built, groups) && GroupOf(files, rootDir, node, g)
    ensures GroupsBuilt(files, rootDir, built + [node], groups + [g])
  {
  }

  /** The groups of one more name extend those of the names before it, and an exception
      there is the exception of all the names. */
  lemma ReferenceGroupsFrom(files: Files, projects: seq<FilePath>, names: seq<string>, i: nat)
    requires i < |names| && ReferenceGroups(files, projects, names[..i]).Ok?
    ensures var used := UsedFiles(files, projects, names[i]);
      var prev := ReferenceGroups(files, projects, names[..i]).value;
      ReferenceGroups(files, projects, names[..i + 1])
        == if used.Err? then Err(used.error)
           else Ok(prev + if |used.value| > 0 then [Group(names[i], used.value)] else [])
    ensures UsedFiles(files, projects, names[i]).Err? ==>
      ReferenceGroups(files, projects, names) == Err(UsedFiles(files, projects, names[i]).error)
  {
    var finder := AssemblyGroupFinder(files, projects);
    CollectSomeSnoc(names, finder, i);
    assert finder(names[i]) == AssemblyGroup(files, projects, names[i]);
    if UsedFiles(files, projects, names[i]).Err? {
      CollectSomeStop(names, finder, i + 1);
    }
  }

  /** Every consumer's version can be read (and is not empty). */
  lemma UsedAreReferenced(files: Files, candidates: seq<FilePath>, assemblyName: string)
    requires UsedFiles(files, candidates, assemblyName).Ok?
    ensures ReferenceVersions(files, UsedFiles(files, candidates, assemblyName).value, assemblyName).Ok?
  {
    var used := UsedFiles(files, candidates, assemblyName).value;
    UsedFilesAre(files, candidates, assemblyName);
    ReferenceVersionsAre(files, used, assemblyName);
  }

  /** The inner loop of GetItems: the files that reference the assembly, in order. */
  method CollectUsed(disk: Disk, files: seq<FilePath>, assemblyName: string) returns (r: Result<seq<FilePath>>)
    ensures r == UsedFiles(disk.files, files, assemblyName)
  {
    ghost var finder := ConsumerFinder(disk.files, assemblyName);
    var usedFiles: seq<FilePath> := [];
    var i := 0;
    while i < |files|
      invariant 0 <= i <= |files|
      invariant CollectSome(files[..i], finder) == Ok(usedFiles)
    {
      CollectSomeSnoc(files, finder, i);
      var rs := IsReferenceProject(disk.files, files[i], assemblyName);
      if rs.Err? {
        CollectSomeStop(files, finder, i + 1);
        return Err(rs.error);
      }
      if rs.value {
        usedFiles := usedFiles + [files[i]];
      } else {
        assert usedFiles + [] == usedFiles;
      }
      i := i + 1;
    }
    assert files[..i] == files;
    return Ok(usedFiles);
  }

  // =====================================================================
  // Rewriting (IncreaseVersion)

  /** One consumer to rewrite: the name of the assembly node it sits under, the node, and
      the node's path. */
  datatype Job = Job(source: Option<string>, child: ProjectInfo, path: Option<FilePath>)

  /** The consumers of one node, each under the node's name. */
  function ChildJobs(source: Option<string>, children: seq<ProjectInfo>): (jobs: seq<Job>)
    reads children
    ensures |jobs| == |children|
    ensures forall j :: 0 <= j < |children| ==> jobs[j] == Job(source, children[j], children[j].path)
  {
    if |children| == 0 then []
    else
      var n := |children| - 1;
      ChildJobs(source, children[..n]) + [Job(source, children[n], children[n].path)]
  }

  /** The consumers of each selected node, node by node. */
  function NodeJobs(items: seq<ProjectInfo>): (parts: seq<seq<Job>>)
    reads items, set k, j | 0 <= k < |items| && 0 <= j < |items[k].items| :: items[k].items[j]
    ensures |parts| == |items|
    ensures forall k :: 0 <= k < |items| ==> parts[k] == ChildJobs(items[k].name, items[k].items)
  {
    if |items| == 0 then []
    else
      var n := |items| - 1;
      NodeJobs(items[..n]) + [ChildJobs(items[n].name, items[n].items)]
  }

  /** The consumers of the selected nodes, in order. */
  function Jobs(items: seq<ProjectInfo>): seq<Job>
    reads items, set k, j | 0 <= k < |items| && 0 <= j < |items[k].items| :: items[k].items[j]
  {
    Concat(NodeJobs(items))
  }

  /** ChangeReferenceVersion called with a null assembly name: no Include equals it, so the
      scan only fails at the first reference without Include; nothing is rewritten. */
  function ChangeUnnamedFile(files: Files, projectFile: FilePath): Result<bool>
  {
    var doc :- Load(files, projectFile);
    if HasUnnamedReference(doc.references) then Err(NullReference) else Ok(true)
  }

  /** Some reference has no Include attribute. */
  predicate HasUnnamedReference(refs: seq<Reference>)
  {
    exists k :: 0 <= k < |refs| && refs[k].includeAttr.None?
  }

  /** ChangeReferenceVersion(childItem.Path, referAssemblyName, version): a null path fails
      in the reader's constructor. */
  function ChangeConsumerFile(files: Files, path: Option<FilePath>, assemblyName: Option<string>, version: string): Effect<bool>
  {
    if path.None? then Effect(Err(ArgumentNull), files)
    else if assemblyName.None? then Effect(ChangeUnnamedFile(files, path.value), files)
    else ChangeReferenceFile(files, path.value, assemblyName.value, version)
  }

  /** The message ChangeReferenceVersion's false result gets: a reference already at the
      requested version. ReferenceNugetController reports the same text when
      ChangeRefNugetVersion returns false, which there means no package had the id. */
  function SameVersionMessage(source: Option<string>, version: string): string
  {
    "Can not change reference version for assembly " + NameText(source) + " with version=[" + version + "]"
  }

  /** The error a consumer's result carries: the exception's message, or the message for a
      reference already at the requested version. */
  function ChangeErrorText(source: Option<string>, version: string, outcome: Result<bool>): Option<string>
  {
    match outcome
    case Err(e) => Some(Message(e))
    case Ok(true) => None
    case Ok(false) => Some(SameVersionMessage(source, version))
  }

  /** The effects of rewriting each consumer in turn, each starting from the files the
      previous one left. */
  function ChangeEffects(files: Files, jobs: seq<Job>, version: string): (r: seq<Effect<bool>>)
    ensures |r| == |jobs|
  {
    if |jobs| == 0 then []
    else
      var n := |jobs| - 1;
      var prev := ChangeEffects(files, jobs[..n], version);
      prev + [ChangeConsumerFile(EffectFiles(files, prev), jobs[n].path, jobs[n].source, version)]
  }

  /** The files after a sequence of effects. */
  function EffectFiles<T>(files: Files, effects: seq<Effect<T>>): Files
  {
    if |effects| == 0 then files else effects[|effects| - 1].files
  }

  /** The results so far: one per consumer reached, of that consumer under its node's name,
      with the error its rewrite left. */
  predicate ResultsFor(results: seq<ResultInfo<ProjectInfo>>, jobs: seq<Job>, effects: seq<Effect<bool>>, version: string)
  {
    |results| == |jobs| == |effects|
    && forall k :: 0 <= k < |results| ==>
      results[k].data == jobs[k].child && results[k].sourceProjectName == jobs[k].source
      && results[k].error == ChangeErrorText(jobs[k].source, version, effects[k].result)
  }

  /** IncreaseVersion: one result per consumer of each selected node, in order, carrying the
      node's name and the error of that consumer's rewrite; a failing rewrite does not stop
      the next one, and each starts from the files the previous one left. */
  method IncreaseVersion(disk: Disk, selectedItems: seq<ProjectInfo>, version: string)
    returns (result: seq<ResultInfo<ProjectInfo>>)
    requires disk.Valid()
    modifies disk
    ensures disk.Valid()
    ensures var jobs := old(Jobs(selectedItems));
      var effects := ChangeEffects(old(disk.files), jobs, version);
      ResultsFor(result, jobs, effects, version) && disk.files == EffectFiles(old(disk.files), effects)
  {
    ghost var start := disk.files;
    ghost var parts := NodeJobs(selectedItems);
    ghost var jobs: seq<Job> := [];
    ghost var effects: seq<Effect<bool>> := [];
    result := [];
    var i := 0;
    while i < |selectedItems|
      invariant 0 <= i <= |selectedItems| && disk.Valid()
      invariant jobs == Concat(parts[..i])
      invariant effects == ChangeEffects(start, jobs, version) && disk.files == EffectFiles(start, effects)
      invariant ResultsFor(result, jobs, effects, version)
    {
      var item := selectedItems[i];
      ConcatSnoc(parts, i);
      result, jobs, effects := IncreaseItem(disk, item.name, item.items, version, start, result, jobs, effects, parts[i]);
      i := i + 1;
    }
    assert parts[..i] == parts;
  }

  /** The inner loop of IncreaseVersion: each consumer of one node in turn. */
  method IncreaseItem(disk: Disk, referAssemblyName: Option<string>, children: seq<ProjectInfo>, version: string,
                      ghost start: Files, results: seq<ResultInfo<ProjectInfo>>,
                      ghost jobs: seq<Job>, ghost effects: seq<Effect<bool>>, ghost own: seq<Job>)
    returns (results': seq<ResultInfo<ProjectInfo>>, ghost jobs': seq<Job>, ghost effects': seq<Effect<bool>>)
    requires disk.Valid()
    requires own == ChildJobs(referAssemblyName, children)
    requires effects == ChangeEffects(start, jobs, version) && disk.files == EffectFiles(start, effects)
    requires ResultsFor(results, jobs, effects, version)
    modifies disk
    ensures disk.Valid()
    ensures jobs' == jobs + own
    ensures effects' == ChangeEffects(start, jobs', version) && disk.files == EffectFiles(start, effects')
    ensures ResultsFor(results', jobs', effects', version)
  {
    results' := results;
    jobs' := jobs;
    effects' := effects;
    var j := 0;
    while j < |children|
      invariant 0 <= j <= |children| && disk.Valid()
      invariant jobs' == jobs + own[..j]
      invariant effects' == ChangeEffects(start, jobs', version) && disk.files == EffectFiles(start, effects')
      invariant ResultsFor(results', jobs', effects', version)
    {
      var childItem := children[j];
      ghost var job := own[j];
      assert job == Job(referAssemblyName, childItem, childItem.path);
      var r;
      ghost var effect;
      r, effect := IncreaseChild(disk, referAssemblyName, childItem, version);
      assert job == Job(referAssemblyName, childItem, childItem.path);
      EffectsSnoc(start, jobs', effects', job, effect, version);
      ResultsForSnoc(results', jobs', effects', r, job, effect, version);
      AppendPrefixSnoc(jobs, own, j);
      results' := results' + [r];
      effects' := effects' + [effect];
      jobs' := jobs' + [job];
      j := j + 1;
    }
    assert own[..j] == own;
  }

  /** One consumer: its rewrite, and a new result naming its node with the error left. */
  method IncreaseChild(disk: Disk, referAssemblyName: Option<string>, childItem: ProjectInfo, version: string)
    returns (r: ResultInfo<ProjectInfo>, ghost effect: Effect<bool>)
    requires disk.Valid()
    modifies disk
    ensures disk.Valid()
    ensures effect == ChangeConsumerFile(old(disk.files), childItem.path, referAssemblyName, version) && disk.files == effect.files
    ensures r.data == childItem && r.sourceProjectName == referAssemblyName
    ensures r.error == ChangeErrorText(referAssemblyName, version, effect.result)
  {
    var changResult := ChangeConsumer(disk, childItem.path, referAssemblyName, version);
    var error: Option<string> := None;
    if changResult.Err? {
      error := Some(Message(changResult.error));
    } else if !changResult.value {
      error := Some(SameVersionMessage(referAssemblyName, version));
    }
    r := ResultInfo(childItem, error, referAssemblyName);
    effect := Effect(changResult, disk.files);
  }

  /** One more rewrite extends the fold of effects. */
  lemma EffectsSnoc(start: Files, jobs: seq<Job>, effects: seq<Effect<bool>>, job: Job, effect: Effect<bool>, version: string)
    requires effects == ChangeEffects(start, jobs, version)
    requires effect == ChangeConsumerFile(EffectFiles(start, effects), job.path, job.source, version)
    ensures effects + [effect] == ChangeEffects(start, jobs + [job], version)
    ensures EffectFiles(start, effects + [effect]) == effect.files
  {
    assert (jobs + [job])[..|jobs|] == jobs;
  }

  /** One more result for one more consumer keeps the results in step. */
  lemma ResultsForSnoc(results: seq<ResultInfo<ProjectInfo>>, jobs: seq<Job>, effects: seq<Effect<bool>>,
                       r: ResultInfo<ProjectInfo>, job: Job, effect: Effect<bool>, version: string)
    requires ResultsFor(results, jobs, effects, version)
    requires r.data == job.child && r.sourceProjectName == job.source
    requires r.error == ChangeErrorText(job.source, version, effect.result)
    ensures ResultsFor(results + [r], jobs + [job], effects + [effect], version)
  {
  }

  /** ChangeReferenceVersion as IncreaseVersion calls it, with a path and a name that may be null. */
  method ChangeConsumer(disk: Disk, path: Option<FilePath>, assemblyName: Option<string>, version: string)
    returns (r: Result<bool>)
    requires disk.Valid()
    modifies disk
    ensures disk.Valid()
    ensures Effect(r, disk.files) == ChangeConsumerFile(old(disk.files), path, assemblyName, version)
  {
    if path.None? {
      return Err(ArgumentNull);
    }
    if assemblyName.None? {
      r := ChangeUnnamed(disk, path.value);
      return;
    }
    r := ChangeReferenceVersion(disk, path.value, assemblyName.value, version);
  }

  /** ChangeReferenceVersion's scan with a null name: it stops only at a reference without Include. */
  method ChangeUnnamed(disk: Disk, projectFile: FilePath) returns (r: Result<bool>)
    ensures r == ChangeUnnamedFile(disk.files, projectFile)
  {
    var loaded := disk.LoadXml(projectFile);
    if loaded.Err? {
      return Err(loaded.error);
    }
    var nodes := loaded.value.references;
    var i := 0;
    while i < |nodes|
      invariant 0 <= i <= |nodes|
      invariant forall k :: 0 <= k < i ==> nodes[k].includeAttr.Some?
    {
      if nodes[i].includeAttr.None? {
        assert HasUnnamedReference(nodes);
        return Err(NullReference);
      }
      i := i + 1;
    }
    assert !HasUnnamedReference(nodes);
    return Ok(true);
  }

  // =====================================================================
  // Properties of one rewrite

  /** A consumer's result carries no error exactly when its rewrite did not throw and did
      not find the reference already at the requested version; that message appears exactly
      in the second case. */
  lemma ConsumerErrorIff(files: Files, path: FilePath, assemblyName: string, version: string)
    requires Load(files, path).Ok?
    ensures var refs := files[path].doc.references;
      var e := ChangeConsumerFile(files, Some(path), Some(assemblyName), version);
      (ChangeErrorText(Some(assemblyName), version, e.result).None? <==>
         ChangeReferences(refs, assemblyName, version).Ok? && !ChangeReferences(refs, assemblyName, version).value.SameVersion?)
      && (e.result == Ok(false) <==>
           FirstIndex(refs, (x: Reference) => StopsChange(x, assemblyName))
             == FirstIndex(refs, (x: Reference) => RefersTo(x, assemblyName)) >= 0
           && ReferenceVersion(refs, assemblyName) == Ok(version))
  {
    ChangeFalseIffSameVersion(files[path].doc.references, assemblyName, version);
  }

  /** A rewrite that did not throw leaves a manifest that references the assembly reading
      back the requested version (when that holds no ',' or '='), and it touches no other
      file. */
  lemma ConsumerReadsBack(files: Files, path: FilePath, assemblyName: string, version: string)
    requires Load(files, path).Ok?
    requires exists k :: 0 <= k < |files[path].doc.references| && RefersTo(files[path].doc.references[k], assemblyName)
    requires ChangeConsumerFile(files, Some(path), Some(assemblyName), version).result.Ok?
    requires ',' !in version && '=' !in version
    ensures var after := ChangeConsumerFile(files, Some(path), Some(assemblyName), version).files;
      GetReferenceVersion(after, path, assemblyName) == Ok(version)
      && forall p :: p != path ==> (p in after <==> p in files) && (p in files ==> after[p] == files[p])
  {
    var refs := files[path].doc.references;
    ChangeNoMatchIff(refs, assemblyName, version);
    ChangeFalseIffSameVersion(refs, assemblyName, version);
    var c := ChangeReferences(refs, assemblyName, version);
    if c.value.Changed? {
      ChangeReadsBack(refs, assemblyName, version);
    } else {
      assert c.value.SameVersion?;
      ChangeStopIsFirstReference(refs, assemblyName);
    }
  }

  /** The rewrites of a batch change only the manifests of its consumers. */
  lemma {:induction false} ChangeEffectsTouchOnlyConsumers(files: Files, jobs: seq<Job>, version: string, p: FilePath)
    requires forall k :: 0 <= k < |jobs| ==> jobs[k].path != Some(p)
    ensures var after := EffectFiles(files, ChangeEffects(files, jobs, version));
      (p in after <==> p in files) && (p in files ==> after[p] == files[p])
    decreases |jobs|
  {
    if |jobs| > 0 {
      var n := |jobs| - 1;
      ChangeEffectsTouchOnlyConsumers(files, jobs[..n], version, p);
      var mid := EffectFiles(files, ChangeEffects(files, jobs[..n], version));
      ConsumerTouchesOnly(mid, jobs[n].path, jobs[n].source, version, p);
    }
  }

  /** One rewrite leaves every file but its consumer's project file as it was. */
  lemma ConsumerTouchesOnly(files: Files, path: Option<FilePath>, assemblyName: Option<string>, version: string, p: FilePath)
    requires path != Some(p)
    ensures var after := ChangeConsumerFile(files, path, assemblyName, version).files;
      (p in after <==> p in files) && (p in files ==> after[p] == files[p])
  {
  }
}
