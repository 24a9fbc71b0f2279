/** NugetController: every package manifest (.nuspec) found below the root
    directory as a package node, and, for the selected packages, the new
    version written into each manifest, reporting the packages it succeeded on. */
module NugetController {
  import opened Wrappers
  import opened Seqs
  import opened Documents
  import opened VsProjectHelper
  import opened Model
  import ProjectController

  // =====================================================================
  // Discovery (GetItems, BuildNugetInfo)

  /** What the recursive search of each folder finds, folder by folder. */
  function Searches(listing: seq<FilePath>, folders: seq<FilePath>, pattern: string): (r: seq<seq<FilePath>>)
    ensures |r| == |folders| && forall k :: 0 <= k < |folders| ==> r[k] == FilesUnder(listing, folders[k], pattern)
  {
    seq(|folders|, k requires 0 <= k < |folders| => FilesUnder(listing, folders[k], pattern))
  }

  /** The files the searches find, concatenated: a file below several of the folders is
      listed once for each of them. */
  function NuspecFiles(listing: seq<FilePath>, folders: seq<FilePath>, pattern: string): seq<FilePath>
  {
    Concat(Searches(listing, folders, pattern))
  }

  /** The files GetItems builds nodes from: nothing when the root does not exist or has no
      subdirectory; otherwise a recursive search of every directory below the root, and a
      null filter reaches Directory.GetFiles, which throws. */
  function FoundNuspecs(directories: seq<FilePath>, listing: seq<FilePath>, rootDir: FilePath,
                        nuspecFilter: Option<string>): Result<seq<FilePath>>
  {
    if rootDir !in directories then Ok([])
    else
      var folders := DirectoriesUnder(directories, rootDir);
      if |folders| == 0 then Ok([])
      else if nuspecFilter.None? then Err(ArgumentNull)
      else Ok(NuspecFiles(listing, folders, nuspecFilter.value))
  }

  /** What is found: the files matching the filter that lie below some directory which itself
      lies below the root. */
  lemma FoundNuspecsAre(directories: seq<FilePath>, listing: seq<FilePath>, rootDir: FilePath,
                        nuspecFilter: Option<string>, p: FilePath)
    requires FoundNuspecs(directories, listing, rootDir, nuspecFilter).Ok?
    ensures p in FoundNuspecs(directories, listing, rootDir, nuspecFilter).value <==>
      rootDir in directories && nuspecFilter.Some? && p in listing && Matches(nuspecFilter.value, FileName(p))
      && exists folder :: folder in directories && IsStrictlyUnder(folder, rootDir) && IsStrictlyUnder(p, folder)
  {
    if rootDir in directories && nuspecFilter.Some? {
      var folders := DirectoriesUnder(directories, rootDir);
      ConcatHas(Searches(listing, folders, nuspecFilter.value), p);
      if exists folder :: folder in directories && IsStrictlyUnder(folder, rootDir) && IsStrictlyUnder(p, folder) {
        var folder :| folder in directories && IsStrictlyUnder(folder, rootDir) && IsStrictlyUnder(p, folder);
        var k :| 0 <= k < |folders| && folders[k] == folder;
        if p in listing && Matches(nuspecFilter.value, FileName(p)) {
          assert p in FilesUnder(listing, folders[k], nuspecFilter.value);
        }
      }
    }
  }

  /** A manifest lying directly in the root is never found: the root itself is not searched,
      only the directories below it. */
  lemma RootNuspecSkipped(directories: seq<FilePath>, listing: seq<FilePath>, rootDir: FilePath,
                          nuspecFilter: Option<string>, p: FilePath)
    requires FoundNuspecs(directories, listing, rootDir, nuspecFilter).Ok?
    requires DirectoryName(p) == Some(rootDir)
    ensures p !in FoundNuspecs(directories, listing, rootDir, nuspecFilter).value
  {
    FoundNuspecsAre(directories, listing, rootDir, nuspecFilter, p);
  }

  /** A manifest below two distinct directories under the root (root\A\B\p.nuspec, found from
      root\A and from root\A\B) is found at least twice. */
  lemma NuspecFoundTwice(directories: seq<FilePath>, listing: seq<FilePath>, rootDir: FilePath,
                         nuspecFilter: string, p: FilePath, outer: FilePath, inner: FilePath)
    requires rootDir in directories && outer in directories && inner in directories && outer != inner
    requires IsStrictlyUnder(outer, rootDir) && IsStrictlyUnder(inner, rootDir)
    requires p in listing && Matches(nuspecFilter, FileName(p)) && IsStrictlyUnder(p, outer) && IsStrictlyUnder(p, inner)
    ensures FoundNuspecs(directories, listing, rootDir, Some(nuspecFilter)).Ok?
    ensures multiset(FoundNuspecs(directories, listing, rootDir, Some(nuspecFilter)).value)[p] >= 2
  {
    var folders := DirectoriesUnder(directories, rootDir);
    var a :| 0 <= a < |folders| && folders[a] == outer;
    var b :| 0 <= b < |folders| && folders[b] == inner;
    assert p in FilesUnder(listing, folders[a], nuspecFilter) && p in FilesUnder(listing, folders[b], nuspecFilter);
    var searches := Searches(listing, folders, nuspecFilter);
    if a < b {
      ConcatRepeat(searches, p, a, b);
    } else {
      ConcatRepeat(searches, p, b, a);
    }
  }

  /** What `new NugetInfo(new FileInfo(f))` reads: the version BuildNugetVersion finds, or the
      exception that escapes it. */
  function NuspecVersion(files: Files, f: FilePath): Result<Option<string>>
  {
    var read := NugetVersionRead(files, Some(f), None);
    if read.error.Some? then Err(read.error.value) else Ok(read.value)
  }

  /** Reading each manifest, as a function of the manifest. */
  function NuspecReader(files: Files): FilePath -> Result<Option<string>>
  {
    f => NuspecVersion(files, f)
  }

  /** The versions of the manifests GetItems finds, in order; the first exception escapes. */
  function ItemVersions(directories: seq<FilePath>, listing: seq<FilePath>, files: Files, rootDir: FilePath,
                        nuspecFilter: Option<string>): Result<seq<Option<string>>>
  {
    var found :- FoundNuspecs(directories, listing, rootDir, nuspecFilter);
    MapResult(found, NuspecReader(files))
  }

  /** A package node built from manifest `f`: named after the file (with its extension), with
      its path and the version its manifest holds, and no items. */
  ghost predicate NuspecNodeOf(files: Files, n: NugetInfo, f: FilePath)
    reads n
  {
    n.name == Some(FileName(f)) && n.path == Some(f) && n.items == [] && n.refVersion == None
    && NuspecVersion(files, f) == Ok(n.nugetVersion)
  }

  /** Node `built[j]` was built from manifest `found[j]`, for every j. */
  ghost predicate NuspecNodesBuilt(files: Files, built: seq<NugetInfo>, found: seq<FilePath>)
    reads built
  {
    |built| == |found| && forall j :: 0 <= j < |built| ==> NuspecNodeOf(files, built[j], found[j])
  }

  /** BuildNugetInfo: a package node per manifest, in order; the first exception escapes. */
  method BuildNugetInfo(disk: Disk, files: seq<FilePath>) returns (r: Result<seq<NugetInfo>>)
    ensures var vs := MapResult(files, NuspecReader(disk.files));
      (r.Ok? <==> vs.Ok?) && (r.Err? ==> r.error == vs.error)
    ensures r.Ok? ==> NuspecNodesBuilt(disk.files, r.value, files)
    ensures r.Ok? ==> forall j :: 0 <= j < |r.value| ==> fresh(r.value[j])
  {
    var result: seq<NugetInfo> := [];
    var i := 0;
    while i < |files|
      invariant 0 <= i <= |files|
      invariant NuspecNodesBuilt(disk.files, result, files[..i])
      invariant forall j :: 0 <= j < |result| ==> fresh(result[j])
    {
      var item := NewNugetInfo(disk, Some(files[i]));
      if item.Err? {
        MapResultAre(files[..i], NuspecReader(disk.files));
        MapResultStop(files, NuspecReader(disk.files), i);
        return Err(item.error);
      }
      result := result + [item.value];
      i := i + 1;
    }
    assert files[..i] == files;
    MapResultAre(files, NuspecReader(disk.files));
    return Ok(result);
  }

  /** GetItems: nothing for a missing root; otherwise one package node per manifest a search of
      a directory below the root finds, folder by folder; the first exception escapes. */
  method GetItems(disk: Disk, rootDir: FilePath, nuspecFilter: Option<string>) returns (r: Result<seq<NugetInfo>>)
    ensures var vs := ItemVersions(disk.directories, disk.listing, disk.files, rootDir, nuspecFilter);
      (r.Ok? <==> vs.Ok?) && (r.Err? ==> r.error == vs.error)
    ensures r.Ok? ==>
      var found := FoundNuspecs(disk.directories, disk.listing, rootDir, nuspecFilter);
      found.Ok? && NuspecNodesBuilt(disk.files, r.value, found.value)
    ensures r.Ok? ==> forall j :: 0 <= j < |r.value| ==> fresh(r.value[j])
  {
    if !disk.DirectoryExists(rootDir) {
      return Ok([]);
    }
    var folders := disk.AllDirectories(rootDir);
    if folders.Err? {
      assert false;
    }
    var all := folders.value;
    if |all| == 0 {
      return Ok([]);
    }
    if nuspecFilter.None? {
      return Err(ArgumentNull);
    }
    var pattern := nuspecFilter.value;
    ghost var searches := Searches(disk.listing, all, pattern);
    assert FoundNuspecs(disk.directories, disk.listing, rootDir, nuspecFilter) == Ok(Concat(searches));
    var result: seq<NugetInfo> := [];
    var i := 0;
    while i < |all|
      invariant 0 <= i <= |all| && |searches| == |all|
      invariant Gathered(disk.files, searches, i, result)
      invariant forall j :: 0 <= j < |result| ==> fresh(result[j])
    {
      var step := CollectFolder(disk, all, i, pattern, searches, result);
      if step.Err? {
        ghost var m := |Concat(searches[..i + 1])|;
        ConcatPrefix(searches, i + 1);
        assert Concat(searches)[..m] == Concat(searches[..i + 1]);
        MapResultPrefixStop(Concat(searches), NuspecReader(disk.files), m);
        return Err(step.error);
      }
      result := step.value;
      i := i + 1;
    }
    assert searches[..i] == searches;
    return Ok(result);
  }

  /** The folders before `i` have been searched: their manifests all read cleanly and `built`
      holds their nodes, in order. */
  ghost predicate Gathered(files: Files, searches: seq<seq<FilePath>>, i: nat, built: seq<NugetInfo>)
    reads built
  {
    i <= |searches|
    && MapResult(Concat(searches[..i]), NuspecReader(files)).Ok?
    && NuspecNodesBuilt(files, built, Concat(searches[..i]))
  }

  /** One turn of GetItems' loop: the manifests the search of folder `folders[i]` finds become
      nodes after those of the folders before it. */
  method CollectFolder(disk: Disk, folders: seq<FilePath>, i: nat, pattern: string,
                       ghost searches: seq<seq<FilePath>>, result: seq<NugetInfo>)
    returns (r: Result<seq<NugetInfo>>)
    requires i < |folders| && folders[i] in disk.directories
    requires searches == Searches(disk.listing, folders, pattern)
    requires Gathered(disk.files, searches, i, result)
    ensures r.Err? ==> MapResult(Concat(searches[..i + 1]), NuspecReader(disk.files)) == Err(r.error)
    ensures r.Ok? ==> Gathered(disk.files, searches, i + 1, r.value)
    ensures r.Ok? ==> forall j :: 0 <= j < |r.value| ==> fresh(r.value[j]) || r.value[j] in result
  {
    ghost var prev := Concat(searches[..i]);
    var files := disk.AllFiles(folders[i], pattern);
    if files.Err? {
      assert false;
    }
    ConcatSnoc(searches, i);
    MapResultAppend(prev, files.value, NuspecReader(disk.files));
    if |files.value| == 0 {
      assert prev + files.value == prev;
      return Ok(result);
    }
    var built := BuildNugetInfo(disk, files.value);
    if built.Err? {
      return Err(built.error);
    }
    NodesBuiltAppend(disk.files, result, prev, built.value, files.value);
    return Ok(result + built.value);
  }

  /** Nodes built from two runs of manifests, one after the other. */
  lemma NodesBuiltAppend(files: Files, a: seq<NugetInfo>, fa: seq<FilePath>, b: seq<NugetInfo>, fb: seq<FilePath>)
    requires NuspecNodesBuilt(files, a, fa) && NuspecNodesBuilt(files, b, fb)
    ensures NuspecNodesBuilt(files, a + b, fa + fb)
  {
    forall j | 0 <= j < |a + b|
      ensures NuspecNodeOf(files, (a + b)[j], (fa + fb)[j])
    {
      if j >= |a| {
        assert (a + b)[j] == b[j - |a|] && (fa + fb)[j] == fb[j - |a|];
      }
    }
  }

  // =====================================================================
  // A batch of packages (IncreaseVersion)

  /** What IncreaseNugetVersion does to one package: the files after it, the package's
      NugetVersion after it, and the exception that stopped it. */
  datatype BumpOutcome = BumpOutcome(files: Files, version: Option<string>, error: Option<Exception>)

  function Bump(files: Files, path: Option<FilePath>, newVersion: string, current: Option<string>): BumpOutcome
  {
    var p := NugetVersionBump(files, path, newVersion, current);
    BumpOutcome(NugetBumpFiles(files, path, newVersion), p.value, p.error)
  }

  /** A package whose bump fails leaves every file as it was; one whose bump succeeds has its
      manifest rewritten, and nothing else. */
  lemma BumpFailureUntouched(files: Files, path: Option<FilePath>, newVersion: string, current: Option<string>)
    ensures var o := Bump(files, path, newVersion, current);
      (o.error.Some? ==> o.files == files)
      && (o.error.None? ==>
            path.Some? && path.value in files && files[path.value].Xml?
            && o.files == files[path.value := Xml(files[path.value].doc.(versions :=
                                   BumpedVersions(files[path.value].doc.versions, newVersion)))])
  {
    if path.Some? {
      match Load(files, path.value)
      case Err(_) =>
      case Ok(doc) =>
        assert BumpNugetVersion(doc.versions, newVersion, None).error
            == BumpNugetVersion(doc.versions, newVersion, current).error;
    }
  }

  /** Between two states, no package has changed its name, its items or its RefVersion. */
  twostate predicate FieldsKept(items: seq<NugetInfo>)
    reads items
  {
    forall m :: 0 <= m < |items| ==>
      items[m].name == old(items[m].name) && items[m].items == old(items[m].items) && items[m].refVersion == old(items[m].refVersion)
  }

  /** The paths of the packages. */
  function NuspecPaths(items: seq<NugetInfo>): (r: seq<Option<FilePath>>)
    reads items
    ensures |r| == |items| && forall i :: 0 <= i < |items| ==> r[i] == items[i].path
  {
    if |items| == 0 then [] else NuspecPaths(items[..|items| - 1]) + [items[|items| - 1].path]
  }

  /** The outcomes of a batch processed in turn: each package starts from the files the
      previous one left (the first from `files`) and from its NugetVersion `starts[i]` at the
      moment it is reached; a failing package does not stop the next one. */
  function BumpOutcomes(newVersion: string, paths: seq<Option<FilePath>>, files: Files,
                        starts: seq<Option<string>>): (r: seq<BumpOutcome>)
    requires |starts| == |paths|
    ensures |r| == |paths|
  {
    if |paths| == 0 then []
    else
      var n := |paths| - 1;
      var prev := BumpOutcomes(newVersion, paths[..n], files, starts[..n]);
      prev + [Bump(FilesAfter(files, prev), paths[n], newVersion, starts[n])]
  }

  /** The files after a sequence of outcomes. */
  function FilesAfter(files: Files, outcomes: seq<BumpOutcome>): Files
  {
    if |outcomes| == 0 then files else outcomes[|outcomes| - 1].files
  }

  /** Which packages were bumped without an exception. */
  function Successes(outcomes: seq<BumpOutcome>): (flags: seq<bool>)
    ensures |flags| == |outcomes| && forall i :: 0 <= i < |outcomes| ==> flags[i] == outcomes[i].error.None?
  {
    seq(|outcomes|, i requires 0 <= i < |outcomes| => outcomes[i].error.None?)
  }

  /** The positions ProjectController.Indices lists for the outcomes are exactly the packages
      that succeeded: a failing package is dropped, a succeeding one kept. */
  lemma SucceededListed(outcomes: seq<BumpOutcome>, i: nat)
    requires i < |outcomes|
    ensures i in ProjectController.Indices(Successes(outcomes)) <==> outcomes[i].error.None?
  {
    if outcomes[i].error.None? {
      ProjectController.IndexListed(Successes(outcomes), i);
    }
  }

  /** The results for the packages processed so far: one fresh ResultInfo without an error for
      each package that succeeded, in selection order, referring to the selected object. */
  ghost predicate ResultsOf(result: seq<ResultInfo<NugetInfo>>, items: seq<NugetInfo>, outcomes: seq<BumpOutcome>)
  {
    var idx := ProjectController.Indices(Successes(outcomes));
    |outcomes| <= |items| && |result| == |idx|
    && forall k :: 0 <= k < |result| ==> idx[k] < |items| && result[k] == ResultInfo(items[idx[k]], None, None)
  }

  /** IncreaseVersion: a result only for each selected package whose IncreaseNugetVersion did
      not throw, in selection order, none of them carrying an error; one failure does not stop
      the next package. `starts[i]` and `outcomes[i].version` are the i-th package's NugetVersion
      when it is reached and right after it is processed. */
  method IncreaseVersion(disk: Disk, selectedItems: seq<NugetInfo>, newVersion: string)
    returns (result: seq<ResultInfo<NugetInfo>>, ghost starts: seq<Option<string>>, ghost outcomes: seq<BumpOutcome>)
    requires disk.Valid()
    modifies disk, selectedItems
    ensures disk.Valid()
    ensures |starts| == |selectedItems|
    ensures NuspecPaths(selectedItems) == old(NuspecPaths(selectedItems))
    ensures FieldsKept(selectedItems)
    ensures outcomes == BumpOutcomes(newVersion, NuspecPaths(selectedItems), old(disk.files), starts)
    ensures disk.files == FilesAfter(old(disk.files), outcomes)
    ensures ResultsOf(result, selectedItems, outcomes)
    ensures forall k :: 0 <= k < |result| ==> !result[k].HasError()
  {
    result, starts, outcomes := [], [], [];
    if |selectedItems| == 0 {
      return;
    }
    ghost var paths := NuspecPaths(selectedItems);
    ghost var files := disk.files;
    var i := 0;
    while i < |selectedItems|
      invariant 0 <= i <= |selectedItems| && disk.Valid() && |starts| == i
      invariant forall m :: 0 <= m < |selectedItems| ==> selectedItems[m].path == paths[m]
      invariant outcomes == BumpOutcomes(newVersion, paths[..i], files, starts)
      invariant FieldsKept(selectedItems)
      invariant disk.files == FilesAfter(files, outcomes)
      invariant ResultsOf(result, selectedItems, outcomes)
      invariant forall k :: 0 <= k < |result| ==> result[k].error.None?
    {
      result, starts, outcomes := IncreaseStep(disk, selectedItems, newVersion, i, paths, files, result, starts, outcomes);
      i := i + 1;
    }
    assert paths[..i] == paths;
    assert NuspecPaths(selectedItems) == paths;
  }

  /** One turn of IncreaseVersion's loop: the next package's outcome extends the batch so far,
      and its result is added when it succeeded. */
  method IncreaseStep(disk: Disk, selectedItems: seq<NugetInfo>, newVersion: string, i: nat,
                      ghost paths: seq<Option<FilePath>>, ghost files: Files, result: seq<ResultInfo<NugetInfo>>,
                      ghost starts: seq<Option<string>>, ghost outcomes: seq<BumpOutcome>)
    returns (result': seq<ResultInfo<NugetInfo>>, ghost starts': seq<Option<string>>, ghost outcomes': seq<BumpOutcome>)
    requires disk.Valid() && |starts| == i < |selectedItems| == |paths|
    requires forall m :: 0 <= m < |selectedItems| ==> selectedItems[m].path == paths[m]
    requires outcomes == BumpOutcomes(newVersion, paths[..i], files, starts)
    requires disk.files == FilesAfter(files, outcomes)
    requires ResultsOf(result, selectedItems, outcomes)
    requires forall k :: 0 <= k < |result| ==> result[k].error.None?
    modifies disk, selectedItems[i]
    ensures disk.Valid() && |starts'| == i + 1
    ensures forall m :: 0 <= m < |selectedItems| ==> selectedItems[m].path == paths[m]
    ensures FieldsKept(selectedItems)
    ensures outcomes' == BumpOutcomes(newVersion, paths[..i + 1], files, starts')
    ensures disk.files == FilesAfter(files, outcomes')
    ensures ResultsOf(result', selectedItems, outcomes')
    ensures forall k :: 0 <= k < |result'| ==> result'[k].error.None?
  {
    var item := selectedItems[i];
    ghost var start := item.nugetVersion;
    ghost var before := disk.files;
    var failure := item.IncreaseNugetVersion(disk, newVersion);
    ghost var o := BumpOutcome(disk.files, item.nugetVersion, failure);
    assert o == Bump(before, paths[i], newVersion, start);
    BumpOutcomesSnoc(newVersion, paths, files, starts, start, i, o);
    starts' := starts + [start];
    outcomes' := outcomes + [o];
    SuccessesSnoc(outcomes, o);
    if failure.None? {
      result' := result + [ResultInfo(item, None, None)];
    } else {
      result' := result;
    }
  }

  /** The batch of the first i + 1 packages is the batch of the first i followed by the outcome
      of the (i + 1)-th. */
  lemma BumpOutcomesSnoc(newVersion: string, paths: seq<Option<FilePath>>, files: Files, starts: seq<Option<string>>,
                         start: Option<string>, i: nat, o: BumpOutcome)
    requires i < |paths| && |starts| == i
    requires o == Bump(FilesAfter(files, BumpOutcomes(newVersion, paths[..i], files, starts)), paths[i], newVersion, start)
    ensures BumpOutcomes(newVersion, paths[..i + 1], files, starts + [start])
      == BumpOutcomes(newVersion, paths[..i], files, starts) + [o]
  {
    assert paths[..i + 1][..i] == paths[..i];
    assert (starts + [start])[..i] == starts;
  }

  /** One more outcome adds its position to the successes exactly when it carries no error. */
  lemma SuccessesSnoc(outcomes: seq<BumpOutcome>, o: BumpOutcome)
    ensures ProjectController.Indices(Successes(outcomes + [o]))
      == ProjectController.Indices(Successes(outcomes)) + if o.error.None? then [|outcomes|] else []
  {
    assert Successes(outcomes + [o])[..|outcomes|] == Successes(outcomes);
  }
}
