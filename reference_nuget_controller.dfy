/** ReferenceNugetController: for each package named in the filter, the
    packages.config files under the root that list it (with the version they
    pin), and, for the selected packages, the new version written into every
    .nuspec dependency under the root and into every selected consumer. */
module ReferenceNugetController {
  import opened Wrappers
  import opened Seqs
  import opened Text
  import opened Documents
  import opened VsProjectHelper
  import opened Model
  import ReferenceAssemblyController

  /** The manifests whose dependencies follow a package's version. */
  const NuspecPattern: string := "*.nuspec"

  /** The fields of FilterSetting this controller reads: the root, the filter of package
      names and the pattern of the consumer lists (packages.config). */
  datatype FilterSetting = FilterSetting(rootDir: FilePath, referenceNugetFilter: Option<string>,
                                         nugetConfigFilter: Option<string>)

  // =====================================================================
  // Consumers (IsReferenceNuget)

  /** IsReferenceNuget: the first file in `dir` matching the config pattern, when the package
      ids it lists contain the name; a null pattern and the exceptions of GetRefNuget escape. */
  function IsReferenceNuget(disk: Disk, files: Files, dir: FilePath, nugetName: string, configPattern: Option<string>)
    : Result<Option<FilePath>>
  {
    if configPattern.None? then Err(ArgumentNull)
    else
      var found :- disk.TopFiles(dir, configPattern.value);
      if |found| == 0 then Ok(None)
      else
        var refNugets :- GetRefNuget(files, found[0]);
        Ok(if nugetName in refNugets then Some(found[0]) else None)
  }

  /** A directory is a consumer exactly when the first config in it lists a package with the
      name, and the config reported is that first one. */
  lemma ReferenceNugetIff(disk: Disk, files: Files, dir: FilePath, nugetName: string, configPattern: Option<string>)
    requires IsReferenceNuget(disk, files, dir, nugetName, configPattern).Ok?
    ensures configPattern.Some? && dir in disk.directories
    ensures var found := FilesIn(disk.listing, dir, configPattern.value);
      |found| > 0 ==> Load(files, found[0]).Ok?
    ensures var found := FilesIn(disk.listing, dir, configPattern.value);
      var r := IsReferenceNuget(disk, files, dir, nugetName, configPattern).value;
      (r.Some? <==> |found| > 0 && exists j :: 0 <= j < |files[found[0]].doc.packages|
                                             && HasId(files[found[0]].doc.packages[j], Some(nugetName)))
      && (r.Some? ==> r.value == found[0])
  {
    var found := FilesIn(disk.listing, dir, configPattern.value);
    if |found| > 0 {
      var packages := files[found[0]].doc.packages;
      var ids := PackageIds(packages).value;
      if nugetName in ids {
        var j :| 0 <= j < |ids| && ids[j] == nugetName;
        assert HasId(packages[j], Some(nugetName));
      }
      if exists j :: 0 <= j < |packages| && HasId(packages[j], Some(nugetName)) {
        var j :| 0 <= j < |packages| && HasId(packages[j], Some(nugetName));
        assert ids[j] == nugetName;
      }
    }
  }

  /** IsReferenceNuget as a function of the directory. */
  function ConfigFinder(disk: Disk, files: Files, nugetName: string, configPattern: Option<string>)
    : FilePath -> Result<Option<FilePath>>
  {
    dir => IsReferenceNuget(disk, files, dir, nugetName, configPattern)
  }

  /** The consumer lists GetItems collects for a name: one per directory whose first config
      lists the package, in directory order; the first exception escapes. */
  function UsedConfigs(disk: Disk, files: Files, dirs: seq<FilePath>, nugetName: string, configPattern: Option<string>)
    : Result<seq<FilePath>>
  {
    CollectSome(dirs, ConfigFinder(disk, files, nugetName, configPattern))
  }

  /** UsedConfigs fails exactly when some directory cannot be examined; otherwise it holds
      exactly the configs reported for the directories. */
  lemma UsedConfigsAre(disk: Disk, files: Files, dirs: seq<FilePath>, nugetName: string, configPattern: Option<string>)
    ensures UsedConfigs(disk, files, dirs, nugetName, configPattern).Ok? <==>
      forall d :: d in dirs ==> IsReferenceNuget(disk, files, d, nugetName, configPattern).Ok?
    ensures UsedConfigs(disk, files, dirs, nugetName, configPattern).Ok? ==>
      forall c :: c in UsedConfigs(disk, files, dirs, nugetName, configPattern).value <==>
        exists d :: d in dirs && IsReferenceNuget(disk, files, d, nugetName, configPattern) == Ok(Some(c))
  {
    CollectSomeAre(dirs, ConfigFinder(disk, files, nugetName, configPattern));
  }

  /** The inner loop of GetItems: the config of every directory that consumes the package. */
  method CollectConfigs(disk: Disk, directories: seq<FilePath>, nugetName: string, configPattern: Option<string>)
    returns (r: Result<seq<FilePath>>)
    ensures r == UsedConfigs(disk, disk.files, directories, nugetName, configPattern)
  {
    ghost var finder := ConfigFinder(disk, disk.files, nugetName, configPattern);
    var usedFiles: seq<FilePath> := [];
    var i := 0;
    while i < |directories|
      invariant 0 <= i <= |directories|
      invariant CollectSome(directories[..i], finder) == Ok(usedFiles)
    {
      CollectSomeSnoc(directories, finder, i);
      var rs := IsReferenceNuget(disk, disk.files, directories[i], nugetName, configPattern);
      if rs.Err? {
        CollectSomeStop(directories, finder, i + 1);
        return Err(rs.error);
      }
      if rs.value.Some? {
        usedFiles := usedFiles + [rs.value.value];
      } else {
        assert usedFiles + [] == usedFiles;
      }
      i := i + 1;
    }
    assert directories[..i] == directories;
    return Ok(usedFiles);
  }

  // =====================================================================
  // Building the tree (BuildReferInfo, BuildItemInfo, BuildRefNugetInfo)

  /** What BuildRefNugetInfo reads from a config: the base constructor's reading (its <version>
      elements, then the name of its directory), then the version it pins the package at. */
  function RefNugetRead(files: Files, f: FilePath, nugetName: string): Result<Option<string>>
  {
    var read := NugetVersionRead(files, Some(f), None);
    if read.error.Some? then Err(read.error.value)
    else if |f| < 2 then Err(ArgumentNull)
    else GetRefNugetVersion(files, f, nugetName)
  }

  /** A consumer node built from config `f`: named after its directory, with the version the
      config pins the package at and the <version> the base constructor read. */
  ghost predicate RefNugetOf(files: Files, c: NugetInfo, f: FilePath, nugetName: string)
    reads c
  {
    |f| >= 2 && c.name == Some(f[|f| - 2]) && c.path == Some(f) && c.items == []
    && NugetVersionRead(files, Some(f), None).error.None?
    && c.nugetVersion == NugetVersionRead(files, Some(f), None).value
    && RefNugetRead(files, f, nugetName) == Ok(c.refVersion)
  }

  /** BuildRefNugetInfo: `new RefNugetInfo(file) { RefVersion = GetRefNugetVersion(…) }`. */
  method BuildRefNugetInfo(disk: Disk, sourceItem: FilePath, assemblyName: string) returns (r: Result<NugetInfo>)
    ensures r.Ok? <==> RefNugetRead(disk.files, sourceItem, assemblyName).Ok?
    ensures r.Err? ==> r.error == RefNugetRead(disk.files, sourceItem, assemblyName).error
    ensures r.Ok? ==> fresh(r.value) && RefNugetOf(disk.files, r.value, sourceItem, assemblyName)
  {
    var built := NewRefNugetInfo(disk, Some(sourceItem));
    if built.Err? {
      return Err(built.error);
    }
    var item := built.value;
    // The base constructor has loaded the config already, so reading the version cannot fail.
    var v := GetRefNugetVersion(disk.files, sourceItem, assemblyName);
    if v.Err? {
      assert false;
    }
    item.refVersion := v.value;
    return Ok(item);
  }

  /** Reading each config, as a function of the config. */
  function RefNugetReader(files: Files, assemblyName: string): FilePath -> Result<Option<string>>
  {
    f => RefNugetRead(files, f, assemblyName)
  }

  /** The versions the consumers pin, in order; the first exception escapes. */
  function RefNugetVersions(files: Files, sourceItem: seq<FilePath>, assemblyName: string): Result<seq<Option<string>>>
  {
    MapResult(sourceItem, RefNugetReader(files, assemblyName))
  }

  /** BuildItemInfo: a consumer node per config, in order; the first exception escapes. */
  method BuildItemInfo(disk: Disk, sourceItem: seq<FilePath>, assemblyName: string) returns (r: Result<seq<NugetInfo>>)
    ensures var vs := RefNugetVersions(disk.files, sourceItem, assemblyName);
      (r.Ok? <==> vs.Ok?) && (r.Err? ==> r.error == vs.error)
    ensures r.Ok? ==> (|r.value| == |sourceItem|
      && forall j :: 0 <= j < |sourceItem| ==> RefNugetOf(disk.files, r.value[j], sourceItem[j], assemblyName))
    ensures r.Ok? ==> forall j :: 0 <= j < |r.value| ==> fresh(r.value[j])
  {
    var result: seq<NugetInfo> := [];
    var i := 0;
    while i < |sourceItem|
      invariant 0 <= i <= |sourceItem| && |result| == i
      invariant forall j :: 0 <= j < i ==> RefNugetOf(disk.files, result[j], sourceItem[j], assemblyName)
      invariant forall j :: 0 <= j < |result| ==> fresh(result[j])
    {
      var item := BuildRefNugetInfo(disk, sourceItem[i], assemblyName);
      if item.Err? {
        MapResultAre(sourceItem[..i], RefNugetReader(disk.files, assemblyName));
        MapResultStop(sourceItem, RefNugetReader(disk.files, assemblyName), i);
        return Err(item.error);
      }
      result := result + [item.value];
      i := i + 1;
    }
    MapResultAre(sourceItem, RefNugetReader(disk.files, assemblyName));
    return Ok(result);
  }

  /** A package and its consumer lists. */
  datatype NugetGroup = NugetGroup(name: string, configs: seq<FilePath>)

  /** A package node for group `g`: named after the package, with the path the root and the
      name combine to, and one consumer node per config, in order. */
  ghost predicate NugetNodeOf(files: Files, rootDir: FilePath, n: NugetInfo, g: NugetGroup)
    reads n, n.items
  {
    n.name == Some(g.name) && n.path == Some(ReferenceAssemblyController.AssemblyPath(rootDir, g.name))
    && n.nugetVersion == None && n.refVersion == None
    && |n.items| == |g.configs|
    && forall j :: 0 <= j < |g.configs| ==> RefNugetOf(files, n.items[j], g.configs[j], g.name)
  }

  /** BuildReferInfo(name, path, files): the node of a package and its consumers. */
  method BuildReferInfo(disk: Disk, assemblyName: string, path: FilePath, listItems: seq<FilePath>)
    returns (r: Result<NugetInfo>)
    ensures var vs := RefNugetVersions(disk.files, listItems, assemblyName);
      (r.Ok? <==> vs.Ok?) && (r.Err? ==> r.error == vs.error)
    ensures r.Ok? ==> (r.value.name == Some(assemblyName) && r.value.path == Some(path)
      && r.value.nugetVersion == None && r.value.refVersion == None && |r.value.items| == |listItems|
      && forall j :: 0 <= j < |listItems| ==> RefNugetOf(disk.files, r.value.items[j], listItems[j], assemblyName))
    ensures r.Ok? ==> fresh(r.value)
    ensures r.Ok? ==> forall j :: 0 <= j < |r.value.items| ==> fresh(r.value.items[j])
  {
    var referenceAssemblys := BuildItemInfo(disk, listItems, assemblyName);
    if referenceAssemblys.Err? {
      return Err(referenceAssemblys.error);
    }
    var asemblyInfo := new NugetInfo.Empty();
    asemblyInfo.name := Some(assemblyName);
    asemblyInfo.path := Some(path);
    asemblyInfo.items := referenceAssemblys.value;
    return Ok(asemblyInfo);
  }

  // =====================================================================
  // Discovery (GetItems)

  /** A name whose consumers can be found, and whose consumer nodes can be built. */
  predicate GroupReadable(disk: Disk, files: Files, dirs: seq<FilePath>, nugetName: string, configPattern: Option<string>)
  {
    var used := UsedConfigs(disk, files, dirs, nugetName, configPattern);
    used.Ok? && (|used.value| > 0 ==> RefNugetVersions(files, used.value, nugetName).Ok?)
  }

  /** The group of one name: its consumer lists, when there is one; building its consumer
      nodes may fail. */
  function GroupOf(disk: Disk, files: Files, dirs: seq<FilePath>, configPattern: Option<string>, nugetName: string)
    : Result<Option<NugetGroup>>
  {
    var used :- UsedConfigs(disk, files, dirs, nugetName, configPattern);
    if |used| == 0 then Ok(None)
    else if RefNugetVersions(files, used, nugetName).Err? then Err(RefNugetVersions(files, used, nugetName).error)
    else Ok(Some(NugetGroup(nugetName, used)))
  }

  /** GroupOf as a function of the name. */
  function GroupFinder(disk: Disk, files: Files, dirs: seq<FilePath>, configPattern: Option<string>)
    : string -> Result<Option<NugetGroup>>
  {
    nugetName => GroupOf(disk, files, dirs, configPattern, nugetName)
  }

  /** The groups GetItems reports: for each name in turn, its consumer lists among the
      directories, when there is at least one; the first exception escapes. */
  function NugetGroups(disk: Disk, files: Files, dirs: seq<FilePath>, names: seq<string>, configPattern: Option<string>)
    : Result<seq<NugetGroup>>
  {
    CollectSome(names, GroupFinder(disk, files, dirs, configPattern))
  }

  /** NugetGroups succeeds exactly when every name is readable; then each group is a name with
      its (non-empty) consumer lists, and every name with consumers has a group. */
  lemma NugetGroupsAre(disk: Disk, files: Files, dirs: seq<FilePath>, names: seq<string>, configPattern: Option<string>)
    ensures NugetGroups(disk, files, dirs, names, configPattern).Ok? <==>
      forall name :: name in names ==> GroupReadable(disk, files, dirs, name, configPattern)
    ensures NugetGroups(disk, files, dirs, names, configPattern).Ok? ==>
      (forall g :: g in NugetGroups(disk, files, dirs, names, configPattern).value ==>
         g.name in names && |g.configs| > 0 && UsedConfigs(disk, files, dirs, g.name, configPattern) == Ok(g.configs))
      && (forall name :: name in names && |UsedConfigs(disk, files, dirs, name, configPattern).value| > 0 ==>
            exists g :: g in NugetGroups(disk, files, dirs, names, configPattern).value && g.name == name)
  {
    var finder := GroupFinder(disk, files, dirs, configPattern);
    CollectSomeAre(names, finder);
    if NugetGroups(disk, files, dirs, names, configPattern).Ok? {
      var r := NugetGroups(disk, files, dirs, names, configPattern).value;
      forall name | name in names && |UsedConfigs(disk, files, dirs, name, configPattern).value| > 0
        ensures exists g :: g in r && g.name == name
      {
        var g := NugetGroup(name, UsedConfigs(disk, files, dirs, name, configPattern).value);
        assert finder(name) == Ok(Some(g));
        assert g in r;
      }
    }
  }

  /** The nodes GetItems has built for the groups so far. */
  ghost predicate NodesBuilt(files: Files, rootDir: FilePath, built: seq<NugetInfo>, groups: seq<NugetGroup>)
    reads built, set k, j | 0 <= k < |built| && 0 <= j < |built[k].items| :: built[k].items[j]
  {
    |built| == |groups| && forall k :: 0 <= k < |built| ==> NugetNodeOf(files, rootDir, built[k], groups[k])
  }

  /** One turn of GetItems' loop when the root exists: the consumers of the i-th name among
      all directories under the root, and its node appended when there is one. */
  method CollectNuget(disk: Disk, rootDir: FilePath, absoluteFilePath: FilePath, names: seq<string>, i: nat,
                      configPattern: Option<string>, result: seq<NugetInfo>)
    returns (r: Result<seq<NugetInfo>>)
    requires i < |names| && rootDir in disk.directories
    requires absoluteFilePath == ReferenceAssemblyController.AssemblyPath(rootDir, names[i])
    requires var dirs := DirectoriesUnder(disk.directories, rootDir);
      NugetGroups(disk, disk.files, dirs, names[..i], configPattern).Ok?
      && NodesBuilt(disk.files, rootDir, result, NugetGroups(disk, disk.files, dirs, names[..i], configPattern).value)
    ensures var dirs := DirectoriesUnder(disk.directories, rootDir);
      var groups := NugetGroups(disk, disk.files, dirs, names[..i + 1], configPattern);
      (r.Ok? <==> groups.Ok?) && (r.Err? ==> NugetGroups(disk, disk.files, dirs, names, configPattern) == Err(r.error))
      && (r.Ok? ==> NodesBuilt(disk.files, rootDir, r.value, groups.value))
    ensures r.Ok? ==> |result| <= |r.value| && forall k :: |result| <= k < |r.value| ==> fresh(r.value[k])
    ensures r.Ok? ==> forall k :: 0 <= k < |result| ==> r.value[k] == result[k]
  {
    ghost var dirs := DirectoriesUnder(disk.directories, rootDir);
    ghost var prev := NugetGroups(disk, disk.files, dirs, names[..i], configPattern).value;
    NugetGroupsFrom(disk, disk.files, dirs, names, i, configPattern);
    var node := NugetNode(disk, rootDir, absoluteFilePath, names[i], configPattern);
    if node.Err? {
      return Err(node.error);
    }
    if node.value.Some? {
      NodesBuiltSnoc(disk.files, rootDir, result, prev, node.value.value,
                     GroupOf(disk, disk.files, dirs, configPattern, names[i]).value.value);
      return Ok(result + [node.value.value]);
    }
    assert prev + [] == prev;
    return Ok(result);
  }

  /** The node of one package, when some directory under the root consumes it. */
  method NugetNode(disk: Disk, rootDir: FilePath, absoluteFilePath: FilePath, nugetName: string,
                   configPattern: Option<string>)
    returns (r: Result<Option<NugetInfo>>)
    requires rootDir in disk.directories
    requires absoluteFilePath == ReferenceAssemblyController.AssemblyPath(rootDir, nugetName)
    ensures var g := GroupOf(disk, disk.files, DirectoriesUnder(disk.directories, rootDir), configPattern, nugetName);
      (r.Ok? <==> g.Ok?) && (r.Err? ==> r.error == g.error)
      && (r.Ok? ==> (r.value.Some? <==> g.value.Some?))
      && (r.Ok? && r.value.Some? ==> fresh(r.value.value) && NugetNodeOf(disk.files, rootDir, r.value.value, g.value.value))
  {
    var directories := disk.AllDirectories(rootDir).value;
    var usedFiles := CollectConfigs(disk, directories, nugetName, configPattern);
    if usedFiles.Err? {
      return Err(usedFiles.error);
    }
    if |usedFiles.value| > 0 {
      var built := BuildReferInfo(disk, nugetName, absoluteFilePath, usedFiles.value);
      if built.Err? {
        return Err(built.error);
      }
      return Ok(Some(built.value));
    }
    return Ok(None);
  }

  /** A node built for one more group extends the nodes built so far. */
  lemma NodesBuiltSnoc(files: Files, rootDir: FilePath, built: seq<NugetInfo>, groups: seq<NugetGroup>,
                       node: NugetInfo, g: NugetGroup)
    requires NodesBuilt(files, rootDir, built, groups) && NugetNodeOf(files, rootDir, node, g)
    ensures NodesBuilt(files, rootDir, built + [node], groups + [g])
  {
  }

  /** The groups of one more name extend those of the names before it, and an exception there
      is the exception of all the names. */
  lemma NugetGroupsFrom(disk: Disk, files: Files, dirs: seq<FilePath>, names: seq<string>, i: nat,
                        configPattern: Option<string>)
    requires i < |names| && NugetGroups(disk, files, dirs, names[..i], configPattern).Ok?
    ensures var used := UsedConfigs(disk, files, dirs, names[i], configPattern);
      var prev := NugetGroups(disk, files, dirs, names[..i], configPattern).value;
      NugetGroups(disk, files, dirs, names[..i + 1], configPattern)
        == if used.Err? then Err(used.error)
           else if |used.value| == 0 then Ok(prev)
           else if RefNugetVersions(files, used.value, names[i]).Err? then Err(RefNugetVersions(files, used.value, names[i]).error)
           else Ok(prev + [NugetGroup(names[i], used.value)])
    ensures NugetGroups(disk, files, dirs, names[..i + 1], configPattern).Err? ==>
      NugetGroups(disk, files, dirs, names, configPattern) == NugetGroups(disk, files, dirs, names[..i + 1], configPattern)
  {
    var finder := GroupFinder(disk, files, dirs, configPattern);
    CollectSomeSnoc(names, finder, i);
    assert finder(names[i]) == GroupOf(disk, files, dirs, configPattern, names[i]);
    var prev := NugetGroups(disk, files, dirs, names[..i], configPattern).value;
    assert prev + [] == prev;
    if NugetGroups(disk, files, dirs, names[..i + 1], configPattern).Err? {
      CollectSomeStop(names, finder, i + 1);
    }
  }

  // =====================================================================
  // Rewriting (IncreaseVersion)

  /** The name of each selected node. */
  function Names(items: seq<NugetInfo>): (names: seq<Option<string>>)
    reads items
    ensures |names| == |items| && forall k :: 0 <= k < |items| ==> names[k] == items[k].name
  {
    seq(|items|, k requires 0 <= k < |items| reads items => items[k].name)
  }

  /** One pass of ChangeDependentNuget over the .nuspec files for one package name: each file
      in turn, its exception swallowed, its saves kept. */
  function DependentPass(files: Files, nuspecs: seq<FilePath>, refNugetName: Option<string>, newVersion: string): Files
  {
    if |nuspecs| == 0 then files
    else
      var n := |nuspecs| - 1;
      ChangeDependentFile(DependentPass(files, nuspecs[..n], refNugetName, newVersion), nuspecs[n], refNugetName, newVersion).files
  }

  /** The passes for the names in turn. */
  function DependentPasses(files: Files, nuspecs: seq<FilePath>, names: seq<Option<string>>, newVersion: string): Files
  {
    if |names| == 0 then files
    else
      var n := |names| - 1;
      DependentPass(DependentPasses(files, nuspecs, names[..n], newVersion), nuspecs, names[n], newVersion)
  }

  /** ChangeDependentNuget: a missing root is only logged, but listing its .nuspec files for the
      first selected node then fails; otherwise every pass runs over every .nuspec under it. */
  function DependentOutcome(disk: Disk, files: Files, rootPath: FilePath, names: seq<Option<string>>, newVersion: string)
    : Effect<()>
  {
    if |names| == 0 then Effect(Ok(()), files)
    else if rootPath !in disk.directories then Effect(Err(DirectoryNotFound(PathText(rootPath))), files)
    else Effect(Ok(()), DependentPasses(files, FilesUnder(disk.listing, rootPath, NuspecPattern), names, newVersion))
  }

  /** One .nuspec rewrite leaves every other file as it was and creates none. */
  lemma DependentFileTouchesOnly(files: Files, nuspecPath: FilePath, refNugetName: Option<string>, newVersion: string, p: FilePath)
    ensures var after := ChangeDependentFile(files, nuspecPath, refNugetName, newVersion).files;
      (p in after <==> p in files) && (p != nuspecPath && p in files ==> after[p] == files[p])
  {
  }

  /** A pass touches only the .nuspec files it is given, and creates no file. */
  lemma {:induction false} DependentPassTouchesOnly(files: Files, nuspecs: seq<FilePath>, refNugetName: Option<string>,
                                                    newVersion: string, p: FilePath)
    ensures var after := DependentPass(files, nuspecs, refNugetName, newVersion);
      (p in after <==> p in files) && (p !in nuspecs && p in files ==> after[p] == files[p])
    decreases |nuspecs|
  {
    if |nuspecs| > 0 {
      var n := |nuspecs| - 1;
      DependentPassTouchesOnly(files, nuspecs[..n], refNugetName, newVersion, p);
      DependentFileTouchesOnly(DependentPass(files, nuspecs[..n], refNugetName, newVersion), nuspecs[n], refNugetName, newVersion, p);
    }
  }

  /** A .nuspec whose rewrite succeeds has every dependency on the package at the new version,
      and keeps every other dependency. */
  lemma DependentFileTargets(files: Files, nuspecPath: FilePath, refNugetName: Option<string>, newVersion: string)
    requires ChangeDependentFile(files, nuspecPath, refNugetName, newVersion).result.Ok?
    ensures var e := ChangeDependentFile(files, nuspecPath, refNugetName, newVersion);
      var before := files[nuspecPath].doc.dependencies;
      nuspecPath in e.files && e.files[nuspecPath].Xml?
      && var after := e.files[nuspecPath].doc.dependencies;
      |after| == |before|
      && (forall j :: 0 <= j < |before| && HasId(before[j], refNugetName) ==> after[j] == before[j].(version := Some(newVersion)))
      && (forall j :: 0 <= j < |before| && !HasId(before[j], refNugetName) ==> after[j] == before[j])
  {
    SetVersionsTargets(files[nuspecPath].doc.dependencies, refNugetName, newVersion);
  }

  /** The loop over the .nuspec files of ChangeDependentNuget for one selected node. */
  method DependentPassInPlace(disk: Disk, nuspecs: seq<FilePath>, refNugetName: Option<string>, newVersion: string)
    requires disk.Valid()
    modifies disk
    ensures disk.Valid()
    ensures disk.files == DependentPass(old(disk.files), nuspecs, refNugetName, newVersion)
  {
    var i := 0;
    while i < |nuspecs|
      invariant 0 <= i <= |nuspecs| && disk.Valid()
      invariant disk.files == DependentPass(old(disk.files), nuspecs[..i], refNugetName, newVersion)
    {
      assert nuspecs[..i + 1][..i] == nuspecs[..i];
      var _ := ChangeDependentNugetVersion(disk, refNugetName, nuspecs[i], newVersion);
      i := i + 1;
    }
    assert nuspecs[..i] == nuspecs;
  }

  /** ChangeDependentNuget: the .nuspec files under the root are listed again for every selected
      node, and each one's dependencies on that node's package get the new version. */
  method ChangeDependentNuget(disk: Disk, rootPath: FilePath, selectedItems: seq<NugetInfo>, newVersion: string)
    returns (r: Result<()>)
    requires disk.Valid()
    modifies disk
    ensures disk.Valid()
    ensures Effect(r, disk.files) == DependentOutcome(disk, old(disk.files), rootPath, old(Names(selectedItems)), newVersion)
  {
    ghost var names := Names(selectedItems);
    ghost var start := disk.files;
    ghost var nuspecs := FilesUnder(disk.listing, rootPath, NuspecPattern);
    var i := 0;
    while i < |selectedItems|
      invariant 0 <= i <= |selectedItems| && |names| == |selectedItems| && disk.Valid()
      invariant i > 0 ==> rootPath in disk.directories
      invariant disk.files == DependentPasses(start, nuspecs, names[..i], newVersion)
    {
      var refNugetName := selectedItems[i].name;
      assert refNugetName == names[i];
      var nuspecFiles := disk.AllFiles(rootPath, NuspecPattern);
      if nuspecFiles.Err? {
        return Err(nuspecFiles.error);
      }
      assert names[..i + 1][..i] == names[..i];
      DependentPassInPlace(disk, nuspecFiles.value, refNugetName, newVersion);
      i := i + 1;
    }
    assert names[..i] == names;
    return Ok(());
  }

  /** One consumer to rewrite: the name of the package node it sits under, the node, and the
      node's path. */
  datatype NugetJob = NugetJob(source: Option<string>, child: NugetInfo, path: Option<FilePath>)

  /** The consumers of one package node, in order. */
  function ChildJobs(source: Option<string>, children: seq<NugetInfo>): (jobs: seq<NugetJob>)
    reads children
    ensures |jobs| == |children|
    ensures forall j :: 0 <= j < |children| ==> jobs[j] == NugetJob(source, children[j], children[j].path)
  {
    if |children| == 0 then []
    else
      var n := |children| - 1;
      ChildJobs(source, children[..n]) + [NugetJob(source, children[n], children[n].path)]
  }

  /** The consumers of each selected node, node by node. */
  function NodeJobs(items: seq<NugetInfo>): (parts: seq<seq<NugetJob>>)
    reads items, set k, j | 0 <= k < |items| && 0 <= j < |items[k].items| :: items[k].items[j]
    ensures |parts| == |items|
    ensures forall k :: 0 <= k < |items| ==> parts[k] == ChildJobs(items[k].name, items[k].items)
  {
    if |items| == 0 then []
    else
      var n := |items| - 1;
      NodeJobs(items[..n]) + [ChildJobs(items[n].name, items[n].items)]
  }

  /** The consumers of the selected nodes, in order. */
  function Jobs(items: seq<NugetInfo>): seq<NugetJob>
    reads items, set k, j | 0 <= k < |items| && 0 <= j < |items[k].items| :: items[k].items[j]
  {
    Concat(NodeJobs(items))
  }

  /** ChangeRefNugetVersion(childItem.Path, refNugetName, version): a null path fails in the
      document's Load. */
  function RefConsumerFile(disk: Disk, files: Files, path: Option<FilePath>, refNugetName: Option<string>, newVersion: string)
    : Effect<bool>
  {
    if path.None? then Effect(Err(ArgumentNull), files)
    else ChangeRefNugetFile(disk, files, path.value, refNugetName, newVersion)
  }

  /** The effects of rewriting each consumer in turn, each starting from the files the previous
      one left. */
  function RefChangeEffects(disk: Disk, files: Files, jobs: seq<NugetJob>, newVersion: string): (r: seq<Effect<bool>>)
    ensures |r| == |jobs|
  {
    if |jobs| == 0 then []
    else
      var n := |jobs| - 1;
      var prev := RefChangeEffects(disk, files, jobs[..n], newVersion);
      prev + [RefConsumerFile(disk, ReferenceAssemblyController.EffectFiles(files, prev), jobs[n].path, jobs[n].source, newVersion)]
  }

  /** The results so far: one per consumer reached, of that consumer under its node's name, with
      the error its rewrite left. */
  predicate ResultsFor(results: seq<ResultInfo<NugetInfo>>, jobs: seq<NugetJob>, effects: seq<Effect<bool>>,
                             newVersion: string)
  {
    |results| == |jobs| == |effects|
    && forall k :: 0 <= k < |results| ==>
      results[k].data == jobs[k].child && results[k].sourceProjectName == jobs[k].source
      && results[k].error == ReferenceAssemblyController.ChangeErrorText(jobs[k].source, newVersion, effects[k].result)
  }

  /** ChangeRefNuget: one result per consumer of each selected node, in order, carrying the
      node's name and the error of that consumer's rewrite; a failing rewrite does not stop the
      next one, and each starts from the files the previous one left. */
  method ChangeRefNuget(disk: Disk, selectedItems: seq<NugetInfo>, newVersion: string)
    returns (result: seq<ResultInfo<NugetInfo>>)
    requires disk.Valid()
    modifies disk
    ensures disk.Valid()
    ensures var jobs := old(Jobs(selectedItems));
      var effects := RefChangeEffects(disk, old(disk.files), jobs, newVersion);
      ResultsFor(result, jobs, effects, newVersion)
      && disk.files == ReferenceAssemblyController.EffectFiles(old(disk.files), effects)
  {
    ghost var start := disk.files;
    ghost var parts := NodeJobs(selectedItems);
    ghost var jobs: seq<NugetJob> := [];
    ghost var effects: seq<Effect<bool>> := [];
    result := [];
    var i := 0;
    while i < |selectedItems|
      invariant 0 <= i <= |selectedItems| && disk.Valid()
      invariant jobs == Concat(parts[..i])
      invariant effects == RefChangeEffects(disk, start, jobs, newVersion)
      invariant disk.files == ReferenceAssemblyController.EffectFiles(start, effects)
      invariant ResultsFor(result, jobs, effects, newVersion)
    {
      var item := selectedItems[i];
      ConcatSnoc(parts, i);
      result, jobs, effects := ChangeRefItem(disk, item.name, item.items, newVersion, start, result, jobs, effects, parts[i]);
      i := i + 1;
    }
    assert parts[..i] == parts;
  }

  /** The inner loop of ChangeRefNuget: each consumer of one package node in turn. */
  method ChangeRefItem(disk: Disk, refNugetName: Option<string>, children: seq<NugetInfo>, newVersion: string,
                       ghost start: Files, results: seq<ResultInfo<NugetInfo>>,
                       ghost jobs: seq<NugetJob>, ghost effects: seq<Effect<bool>>, ghost own: seq<NugetJob>)
    returns (results': seq<ResultInfo<NugetInfo>>, ghost jobs': seq<NugetJob>, ghost effects': seq<Effect<bool>>)
    requires disk.Valid()
    requires own == ChildJobs(refNugetName, children)
    requires effects == RefChangeEffects(disk, start, jobs, newVersion)
    requires disk.files == ReferenceAssemblyController.EffectFiles(start, effects)
    requires ResultsFor(results, jobs, effects, newVersion)
    modifies disk
    ensures disk.Valid()
    ensures jobs' == jobs + own
    ensures effects' == RefChangeEffects(disk, start, jobs', newVersion)
    ensures disk.files == ReferenceAssemblyController.EffectFiles(start, effects')
    ensures ResultsFor(results', jobs', effects', newVersion)
  {
    results' := results;
    jobs' := jobs;
    effects' := effects;
    var j := 0;
    while j < |children|
      invariant 0 <= j <= |children| && disk.Valid()
      invariant jobs' == jobs + own[..j]
      invariant effects' == RefChangeEffects(disk, start, jobs', newVersion)
      invariant disk.files == ReferenceAssemblyController.EffectFiles(start, effects')
      invariant ResultsFor(results', jobs', effects', newVersion)
    {
      var childItem := children[j];
      ghost var job := own[j];
      assert job == NugetJob(refNugetName, childItem, childItem.path);
      var r;
      ghost var effect;
      r, effect := ChangeRefChild(disk, refNugetName, childItem, newVersion);
      assert job == NugetJob(refNugetName, childItem, childItem.path);
      RefEffectsSnoc(disk, start, jobs', effects', job, effect, newVersion);
      ResultsForSnoc(results', jobs', effects', r, job, effect, newVersion);
      AppendPrefixSnoc(jobs, own, j);
      results' := results' + [r];
      effects' := effects' + [effect];
      jobs' := jobs' + [job];
      j := j + 1;
    }
    assert own[..j] == own;
  }

  /** One consumer: its rewrite, and a new result naming its package node with the error left. */
  method ChangeRefChild(disk: Disk, refNugetName: Option<string>, childItem: NugetInfo, newVersion: string)
    returns (r: ResultInfo<NugetInfo>, ghost effect: Effect<bool>)
    requires disk.Valid()
    modifies disk
    ensures disk.Valid()
    ensures effect == RefConsumerFile(disk, old(disk.files), childItem.path, refNugetName, newVersion)
    ensures disk.files == effect.files
    ensures r.data == childItem && r.sourceProjectName == refNugetName
    ensures r.error == ReferenceAssemblyController.ChangeErrorText(refNugetName, newVersion, effect.result)
  {
    var changResult: Result<bool>;
    if childItem.path.None? {
      changResult := Err(ArgumentNull);
    } else {
      changResult := ChangeRefNugetVersion(disk, childItem.path.value, refNugetName, newVersion);
    }
    var error: Option<string> := None;
    if changResult.Err? {
      error := Some(Message(changResult.error));
    } else if !changResult.value {
      // the same text as for assemblies, here meaning that no package had the id
      error := Some(ReferenceAssemblyController.SameVersionMessage(refNugetName, newVersion));
    }
    r := ResultInfo(childItem, error, refNugetName);
    effect := Effect(changResult, disk.files);
  }

  /** One more rewrite extends the fold of effects. */
  lemma RefEffectsSnoc(disk: Disk, start: Files, jobs: seq<NugetJob>, effects: seq<Effect<bool>>, job: NugetJob,
                       effect: Effect<bool>, newVersion: string)
    requires effects == RefChangeEffects(disk, start, jobs, newVersion)
    requires effect == RefConsumerFile(disk, ReferenceAssemblyController.EffectFiles(start, effects), job.path, job.source, newVersion)
    ensures effects + [effect] == RefChangeEffects(disk, start, jobs + [job], newVersion)
    ensures ReferenceAssemblyController.EffectFiles(start, effects + [effect]) == effect.files
  {
    assert (jobs + [job])[..|jobs|] == jobs;
  }

  /** One more result for one more consumer keeps the results in step. */
  lemma ResultsForSnoc(results: seq<ResultInfo<NugetInfo>>, jobs: seq<NugetJob>, effects: seq<Effect<bool>>,
                       r: ResultInfo<NugetInfo>, job: NugetJob, effect: Effect<bool>, newVersion: string)
    requires ResultsFor(results, jobs, effects, newVersion)
    requires r.data == job.child && r.sourceProjectName == job.source
    requires r.error == ReferenceAssemblyController.ChangeErrorText(job.source, newVersion, effect.result)
    ensures ResultsFor(results + [r], jobs + [job], effects + [effect], newVersion)
  {
  }

  // =====================================================================
  // Properties of one consumer's rewrite

  /** A consumer's rewrite touches only its own directory: the config and the first *.csproj
      beside it; it creates no file. */
  lemma RefConsumerTouchesOnly(disk: Disk, files: Files, path: Option<FilePath>, refNugetName: Option<string>,
                               newVersion: string, p: FilePath)
    requires path.None? || DirectoryName(p) != DirectoryName(path.value)
    ensures var after := RefConsumerFile(disk, files, path, refNugetName, newVersion).files;
      (p in after <==> p in files) && (p in files ==> after[p] == files[p])
  {
    if path.Some? {
      var pass := ChangePackagesFile(files, path.value, refNugetName, newVersion);
      assert p != path.value;
      var dir := DirectoryName(path.value);
      if pass.result == Ok(true) && dir.Some? && disk.TopFiles(dir.value, "*.csproj").Ok? {
        var projects := disk.TopFiles(dir.value, "*.csproj").value;
        if |projects| > 0 {
          assert projects[0] in projects;
          assert p != projects[0];
        }
      }
    }
  }

  /** The rewrites touch only the directories of the consumers, and create no file. */
  lemma {:induction false} RefChangeEffectsTouchOnly(disk: Disk, files: Files, jobs: seq<NugetJob>, newVersion: string,
                                                     p: FilePath)
    requires forall k :: 0 <= k < |jobs| ==> jobs[k].path.None? || DirectoryName(p) != DirectoryName(jobs[k].path.value)
    ensures var after := ReferenceAssemblyController.EffectFiles(files, RefChangeEffects(disk, files, jobs, newVersion));
      (p in after <==> p in files) && (p in files ==> after[p] == files[p])
    decreases |jobs|
  {
    if |jobs| > 0 {
      var n := |jobs| - 1;
      RefChangeEffectsTouchOnly(disk, files, jobs[..n], newVersion, p);
      var mid := ReferenceAssemblyController.EffectFiles(files, RefChangeEffects(disk, files, jobs[..n], newVersion));
      RefConsumerTouchesOnly(disk, mid, jobs[n].path, jobs[n].source, newVersion, p);
    }
  }

  /** A consumer whose rewrite reports true pins the package at the new version afterwards,
      unless the *.csproj rewritten beside it is the config itself. */
  lemma RefConsumerReadsBack(disk: Disk, files: Files, path: FilePath, refNugetName: string, newVersion: string)
    requires RefConsumerFile(disk, files, Some(path), Some(refNugetName), newVersion).result == Ok(true)
    requires !Matches("*.csproj", FileName(path))
    ensures GetRefNugetVersion(RefConsumerFile(disk, files, Some(path), Some(refNugetName), newVersion).files, path, refNugetName)
      == Ok(Some(newVersion))
  {
    var pass := ChangePackagesFile(files, path, Some(refNugetName), newVersion);
    ChangePackagesResult(files, path, Some(refNugetName), newVersion);
    assert GetRefNugetVersion(pass.files, path, refNugetName) == Ok(Some(newVersion));
    var e := RefConsumerFile(disk, files, Some(path), Some(refNugetName), newVersion);
    var dir := DirectoryName(path);
    if dir.Some? && disk.TopFiles(dir.value, "*.csproj").Ok? {
      var projects := disk.TopFiles(dir.value, "*.csproj").value;
      if |projects| > 0 {
        var u := UpdateNugetRefFile(pass.files, projects[0], Some(refNugetName), newVersion);
        assert e.files == u.files;
        assert projects[0] in projects;
        assert projects[0] != path;
        assert Load(u.files, path) == Load(pass.files, path);
      } else {
        assert e.files == pass.files;
      }
    } else {
      assert e.files == pass.files;
    }
  }

  /** The body of GetItems after the settings are kept: nothing for an empty filter or a missing root;
      otherwise one node per named package that some config in some directory under the root
      lists, in filter order, holding those consumers in directory order. */
  method CollectNugets(disk: Disk, filterSetting: FilterSetting) returns (r: Result<seq<NugetInfo>>)
    ensures IsNullOrEmpty(filterSetting.referenceNugetFilter) || filterSetting.rootDir !in disk.directories ==> r == Ok([])
    ensures !IsNullOrEmpty(filterSetting.referenceNugetFilter) && filterSetting.rootDir in disk.directories ==>
      var groups := NugetGroups(disk, disk.files, DirectoriesUnder(disk.directories, filterSetting.rootDir),
                                ReferenceAssemblyController.AssemblyNames(filterSetting.referenceNugetFilter.value),
                                filterSetting.nugetConfigFilter);
      (r.Ok? <==> groups.Ok?) && (r.Err? ==> r.error == groups.error)
      && (r.Ok? ==> NodesBuilt(disk.files, filterSetting.rootDir, r.value, groups.value))
    ensures r.Ok? ==> forall k :: 0 <= k < |r.value| ==> fresh(r.value[k])
  {
    if IsNullOrEmpty(filterSetting.referenceNugetFilter) {
      return Ok([]);
    }
    var rootDir := filterSetting.rootDir;
    var nugetNames := ReferenceAssemblyController.AssemblyNames(filterSetting.referenceNugetFilter.value);
    ghost var dirs := DirectoriesUnder(disk.directories, rootDir);
    var result: seq<NugetInfo> := [];
    var i := 0;
    while i < |nugetNames|
      invariant 0 <= i <= |nugetNames|
      invariant rootDir !in disk.directories ==> result == []
      invariant rootDir in disk.directories ==>
        NugetGroups(disk, disk.files, dirs, nugetNames[..i], filterSetting.nugetConfigFilter).Ok?
        && NodesBuilt(disk.files, rootDir, result,
                      NugetGroups(disk, disk.files, dirs, nugetNames[..i], filterSetting.nugetConfigFilter).value)
      invariant forall k :: 0 <= k < |result| ==> fresh(result[k])
    {
      var absoluteFilePath := ReferenceAssemblyController.AssemblyPath(rootDir, nugetNames[i]);
      if disk.DirectoryExists(rootDir) {
        var step := CollectNuget(disk, rootDir, absoluteFilePath, nugetNames, i, filterSetting.nugetConfigFilter, result);
        if step.Err? {
          return Err(step.error);
        }
        result := step.value;
      }
      i := i + 1;
    }
    assert nugetNames[..i] == nugetNames;
    return Ok(result);
  }

  // =====================================================================
  // The controller

  /** ReferenceNugetController: GetItems keeps the settings it was called with, which
      IncreaseVersion then reads the root from. */
  class Controller {
    var cachingFilterSetting: Option<FilterSetting>

    constructor ()
      ensures cachingFilterSetting == None
    {
      cachingFilterSetting := None;
    }

    /** GetItems: the settings are kept first, then the packages are collected. */
    method GetItems(disk: Disk, filterSetting: FilterSetting) returns (r: Result<seq<NugetInfo>>)
      modifies this
      ensures cachingFilterSetting == Some(filterSetting)
      ensures IsNullOrEmpty(filterSetting.referenceNugetFilter) || filterSetting.rootDir !in disk.directories ==> r == Ok([])
      ensures !IsNullOrEmpty(filterSetting.referenceNugetFilter) && filterSetting.rootDir in disk.directories ==>
        var groups := NugetGroups(disk, disk.files, DirectoriesUnder(disk.directories, filterSetting.rootDir),
                                  ReferenceAssemblyController.AssemblyNames(filterSetting.referenceNugetFilter.value),
                                  filterSetting.nugetConfigFilter);
        (r.Ok? <==> groups.Ok?) && (r.Err? ==> r.error == groups.error)
        && (r.Ok? ==> NodesBuilt(disk.files, filterSetting.rootDir, r.value, groups.value))
      ensures r.Ok? ==> forall k :: 0 <= k < |r.value| ==> fresh(r.value[k])
    {
      cachingFilterSetting := Some(filterSetting);
      r := CollectNugets(disk, filterSetting);
    }

    /** IncreaseVersion: the dependent .nuspec files first (their failures swallowed, a missing
        root or a missing GetItems fatal), then every selected consumer. */
    method IncreaseVersion(disk: Disk, selectedItems: seq<NugetInfo>, newVersion: string)
      returns (r: Result<seq<ResultInfo<NugetInfo>>>)
      requires disk.Valid()
      modifies disk
      ensures disk.Valid()
      ensures cachingFilterSetting.None? ==> r == Err(NullReference) && disk.files == old(disk.files)
      ensures cachingFilterSetting.Some? ==>
        var dep := DependentOutcome(disk, old(disk.files), cachingFilterSetting.value.rootDir, old(Names(selectedItems)), newVersion);
        (r.Err? <==> dep.result.Err?) && (r.Err? ==> r.error == dep.result.error && disk.files == dep.files)
      ensures cachingFilterSetting.Some? && r.Ok? ==>
        var dep := DependentOutcome(disk, old(disk.files), cachingFilterSetting.value.rootDir, old(Names(selectedItems)), newVersion);
        var jobs := old(Jobs(selectedItems));
        var effects := RefChangeEffects(disk, dep.files, jobs, newVersion);
        ResultsFor(r.value, jobs, effects, newVersion)
        && disk.files == ReferenceAssemblyController.EffectFiles(dep.files, effects)
    {
      if cachingFilterSetting.None? {
        return Err(NullReference);
      }
      ghost var jobs := Jobs(selectedItems);
      var dependent := ChangeDependentNuget(disk, cachingFilterSetting.value.rootDir, selectedItems, newVersion);
      if dependent.Err? {
        return Err(dependent.error);
      }
      assert Jobs(selectedItems) == jobs;
      var results := ChangeRefNuget(disk, selectedItems, newVersion);
      return Ok(results);
    }
  }
}
