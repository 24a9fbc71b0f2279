/** ProjectController: discovering projects under a root, rewriting the version
    literals of their AssemblyInfo.cs, and collecting per-project results. */
module ProjectController {
  import opened Wrappers
  import opened Text
  import opened Documents
  import opened VersionHelper
  import opened VsProjectHelper
  import opened Model

  const NoAssemblyFileMessage: string := "UpdateAssemblyVersion - No assembly file."

  // =====================================================================
  // One line (ChangeVersionInLine)

  /** ChangeVersionInLine: the text between the first two quotes is the old version, and every
      occurrence of it in the line (not only the quoted one) becomes the new version. */
  function ChangeVersionInLine(lineStr: string, newVersion: string): Result<string>
  {
    var startIndex := IndexOf(lineStr, '"');
    var endIndex := IndexOfFrom(lineStr, '"', startIndex + 1);
    var oldVersion :- Substring(lineStr, startIndex + 1, endIndex - startIndex - 1);
    Replace(lineStr, oldVersion, newVersion)
  }

  /** The old version is exactly what ReadAsemblyVersion reads from the line; a line without
      two quotes, or with an empty literal, cannot be rewritten. */
  lemma ChangeVersionInLineReplaces(lineStr: string, newVersion: string)
    ensures var oldVersion := ReadAsemblyVersion(lineStr);
      ChangeVersionInLine(lineStr, newVersion) ==
        if oldVersion.Err? then Err(oldVersion.error)
        else if oldVersion.value == "" then Err(EmptyOldValue)
        else Ok(ReplaceAll(lineStr, oldVersion.value, newVersion))
  {
  }

  /** A rewritten line reads back as the new version, provided that holds no quote. */
  lemma ChangeVersionInLineReadsBack(lineStr: string, newVersion: string)
    requires '"' !in newVersion
    requires ChangeVersionInLine(lineStr, newVersion).Ok?
    ensures ReadAsemblyVersion(ChangeVersionInLine(lineStr, newVersion).value) == Ok(newVersion)
  {
    ChangeVersionInLineReplaces(lineStr, newVersion);
    ReadAsemblyVersionIsSecondPiece(lineStr);
    var parts := Split(lineStr, '"');
    var oldVersion := parts[1];
    JoinSplit(lineStr, '"');
    ReplaceJoin('"', parts, oldVersion, newVersion);
    var newParts := ReplaceEach(parts, oldVersion, newVersion);
    ReplaceWhole(oldVersion, newVersion);
    forall i | 0 <= i < |newParts|
      ensures '"' !in newParts[i]
    {
      ReplaceExcludes(parts[i], oldVersion, newVersion, '"');
    }
    SplitJoin(newParts, '"');
    var changed := ChangeVersionInLine(lineStr, newVersion).value;
    assert changed == Join('"', newParts);
    ReadAsemblyVersionIsSecondPiece(changed);
  }

  // =====================================================================
  // One file (UpVersion)

  /** The lines UpVersion rewrites: not starting with "//" and holding one of the three markers. */
  predicate Marked(line: string)
  {
    !StartsWith(line, "//")
    && (Contains(line, AssemblyInformationalVersionConst) || Contains(line, AssemblyVersionConst)
        || Contains(line, AssemblyFileVersionConst))
  }

  /** UpVersion rewrites exactly the lines GetAssemblyInfo reads a version from. */
  lemma MarkedFeedsSomeField(line: string)
    ensures Marked(line) <==> !IsComment(line) && MarkerOf(line) != Unmarked
  {
  }

  /** The lines of the file after UpVersion: each marked line rewritten, front to back; the
      first line that cannot be rewritten fails the whole file. */
  function UpVersionLines(lines: seq<string>, newVersion: string): Result<seq<string>>
  {
    if |lines| == 0 then Ok([])
    else
      var head :- if Marked(lines[0]) then ChangeVersionInLine(lines[0], newVersion) else Ok(lines[0]);
      var tail :- UpVersionLines(lines[1..], newVersion);
      Ok([head] + tail)
  }

  /** UpVersionLines succeeds exactly when every marked line can be rewritten, and then it
      rewrites the marked lines and keeps the others, at the same positions. */
  lemma UpVersionLinesOk(lines: seq<string>, newVersion: string)
    ensures UpVersionLines(lines, newVersion).Ok? <==>
      forall j :: 0 <= j < |lines| && Marked(lines[j]) ==> ChangeVersionInLine(lines[j], newVersion).Ok?
    ensures UpVersionLines(lines, newVersion).Ok? ==>
      var r := UpVersionLines(lines, newVersion).value;
      |r| == |lines| && forall j :: 0 <= j < |lines| ==>
        r[j] == if Marked(lines[j]) then ChangeVersionInLine(lines[j], newVersion).value else lines[j]
  {
    UpVersionLinesSucceeds(lines, newVersion);
    if UpVersionLines(lines, newVersion).Ok? {
      UpVersionLinesValues(lines, newVersion);
    }
  }

  lemma {:induction false} UpVersionLinesSucceeds(lines: seq<string>, newVersion: string)
    ensures UpVersionLines(lines, newVersion).Ok? <==>
      forall j :: 0 <= j < |lines| && Marked(lines[j]) ==> ChangeVersionInLine(lines[j], newVersion).Ok?
    decreases |lines|
  {
    if |lines| > 0 {
      var rest := lines[1..];
      UpVersionLinesSucceeds(rest, newVersion);
      assert forall j :: 1 <= j < |lines| ==> lines[j] == rest[j - 1];
      if (!Marked(lines[0]) || ChangeVersionInLine(lines[0], newVersion).Ok?) && UpVersionLines(rest, newVersion).Err? {
        var j :| 0 <= j < |rest| && Marked(rest[j]) && ChangeVersionInLine(rest[j], newVersion).Err?;
        assert lines[j + 1] == rest[j];
      }
    }
  }

  lemma {:induction false} UpVersionLinesValues(lines: seq<string>, newVersion: string)
    requires UpVersionLines(lines, newVersion).Ok?
    requires forall j :: 0 <= j < |lines| && Marked(lines[j]) ==> ChangeVersionInLine(lines[j], newVersion).Ok?
    ensures var r := UpVersionLines(lines, newVersion).value;
      |r| == |lines| && forall j :: 0 <= j < |lines| ==>
        r[j] == if Marked(lines[j]) then ChangeVersionInLine(lines[j], newVersion).value else lines[j]
    decreases |lines|
  {
    if |lines| > 0 {
      var rest := lines[1..];
      assert forall j :: 1 <= j < |lines| ==> lines[j] == rest[j - 1];
      UpVersionLinesValues(rest, newVersion);
      var r := UpVersionLines(lines, newVersion).value;
      assert forall j :: 1 <= j < |lines| ==> lines[j] == rest[j - 1] && r[j] == UpVersionLines(rest, newVersion).value[j - 1];
    }
  }

  /** The error of UpVersionLines is that of the first marked line that cannot be rewritten. */
  lemma {:induction false} UpVersionLinesFailsAt(lines: seq<string>, newVersion: string, i: nat)
    requires i < |lines| && Marked(lines[i]) && ChangeVersionInLine(lines[i], newVersion).Err?
    requires forall j :: 0 <= j < i && Marked(lines[j]) ==> ChangeVersionInLine(lines[j], newVersion).Ok?
    ensures UpVersionLines(lines, newVersion) == Err(ChangeVersionInLine(lines[i], newVersion).error)
    decreases i
  {
    if i > 0 {
      var rest := lines[1..];
      assert forall j :: 0 <= j < |rest| ==> rest[j] == lines[j + 1];
      UpVersionLinesFailsAt(rest, newVersion, i - 1);
    }
  }

  /** After UpVersion every marked line reads back as the new version. */
  lemma UpVersionThenRead(lines: seq<string>, newVersion: string)
    requires '"' !in newVersion
    requires UpVersionLines(lines, newVersion).Ok?
    requires forall j :: 0 <= j < |lines| && Marked(lines[j]) ==> ChangeVersionInLine(lines[j], newVersion).Ok?
    ensures var r := UpVersionLines(lines, newVersion).value;
      |r| == |lines| && forall j :: 0 <= j < |lines| && Marked(lines[j]) ==> ReadAsemblyVersion(r[j]) == Ok(newVersion)
  {
    UpVersionLinesOk(lines, newVersion);
    forall j | 0 <= j < |lines| && Marked(lines[j])
      ensures ReadAsemblyVersion(UpVersionLines(lines, newVersion).value[j]) == Ok(newVersion)
    {
      ChangeVersionInLineReadsBack(lines[j], newVersion);
    }
  }

  /** The file system after UpVersion: an unreadable file or a line that cannot be rewritten
      leaves every file as it was. */
  function UpVersionFile(files: Files, filePath: FilePath, newVersion: string): Effect<()>
  {
    match ReadAllLines(files, filePath)
    case Err(e) => Effect(Err(e), files)
    case Ok(lines) =>
      match UpVersionLines(lines, newVersion)
      case Err(e) => Effect(Err(e), files)
      case Ok(newLines) => Effect(Ok(()), files[filePath := Lines(newLines)])
  }

  /** Which lines are marked. */
  function MarkFlags(lines: seq<string>): (flags: seq<bool>)
    ensures |flags| == |lines| && forall j :: 0 <= j < |lines| ==> flags[j] == Marked(lines[j])
  {
    seq(|lines|, j requires 0 <= j < |lines| => Marked(lines[j]))
  }

  /** The positions holding true, in increasing order (IndicesIncreasing). */
  function Indices(flags: seq<bool>): (r: seq<nat>)
    ensures forall k :: 0 <= k < |r| ==> r[k] < |flags| && flags[r[k]]
  {
    if |flags| == 0 then []
    else Indices(flags[..|flags| - 1]) + if flags[|flags| - 1] then [|flags| - 1] else []
  }

  /** The listed positions increase strictly. */
  lemma {:induction false} IndicesIncreasing(flags: seq<bool>, a: nat, b: nat)
    requires a < b < |Indices(flags)|
    ensures Indices(flags)[a] < Indices(flags)[b]
    decreases |flags|
  {
    var front := flags[..|flags| - 1];
    if b < |Indices(front)| {
      IndicesIncreasing(front, a, b);
    }
  }

  /** Every position holding true is listed. */
  lemma {:induction false} IndexListed(flags: seq<bool>, j: nat)
    requires j < |flags| && flags[j]
    ensures j in Indices(flags)
    decreases |flags|
  {
    var front := flags[..|flags| - 1];
    if j < |front| {
      assert front[j] == flags[j];
      IndexListed(front, j);
    }
  }

  /** UpVersion: read the lines, note the marked ones, rewrite them in the array and write the
      file back; an exception on any line leaves the file unwritten. */
  method UpVersion(disk: Disk, filePath: FilePath, newVersion: string) returns (r: Result<()>)
    requires disk.Valid()
    modifies disk
    ensures disk.Valid()
    ensures Effect(r, disk.files) == UpVersionFile(old(disk.files), filePath, newVersion)
  {
    var read := disk.ReadLines(filePath);
    if read.Err? {
      return Err(read.error);
    }
    var lines := read.value;
    var allLines := new string[|lines|](j requires 0 <= j < |lines| => lines[j]);
    assert allLines[..] == lines;
    var listIndex := CollectMarked(allLines);
    assert MarkFlags(allLines[..]) == MarkFlags(lines);
    var failure := RewriteMarked(allLines, listIndex, newVersion);
    if failure.Some? {
      return Err(failure.value);
    }
    disk.WriteLines(filePath, allLines[..]);
    return Ok(());
  }

  /** The first loop of UpVersion: the indexes of the marked lines. */
  method CollectMarked(allLines: array<string>) returns (listIndex: seq<nat>)
    ensures listIndex == Indices(MarkFlags(allLines[..]))
  {
    listIndex := [];
    var index := 0;
    ghost var flags := MarkFlags(allLines[..]);
    while index < allLines.Length
      invariant 0 <= index <= allLines.Length
      invariant listIndex == Indices(flags[..index])
    {
      var line := allLines[index];
      assert flags[..index + 1][..index] == flags[..index];
      if StartsWith(line, "//") {
        index := index + 1;
        continue;
      }
      if Contains(line, AssemblyInformationalVersionConst) || Contains(line, AssemblyVersionConst)
        || Contains(line, AssemblyFileVersionConst)
      {
        listIndex := listIndex + [index];
      }
      index := index + 1;
    }
    assert flags[..index] == flags;
  }

  /** The second loop of UpVersion: each marked line rewritten in place, stopping at the
      first line that cannot be rewritten. */
  method RewriteMarked(allLines: array<string>, listIndex: seq<nat>, newVersion: string)
    returns (failure: Option<Exception>)
    requires listIndex == Indices(MarkFlags(allLines[..]))
    modifies allLines
    ensures failure.None? ==> UpVersionLines(old(allLines[..]), newVersion) == Ok(allLines[..])
    ensures failure.Some? ==> UpVersionLines(old(allLines[..]), newVersion) == Err(failure.value)
  {
    ghost var lines := allLines[..];
    var k := 0;
    FirstIndexed(MarkFlags(lines), listIndex);
    while k < |listIndex|
      invariant 0 <= k <= |listIndex| && allLines.Length == |lines|
      invariant RewrittenBelow(lines, newVersion, listIndex, k, allLines[..])
    {
      failure := RewriteAt(allLines, lines, listIndex, k, newVersion);
      if failure.Some? {
        return;
      }
      k := k + 1;
    }
    RewriteFinished(lines, newVersion, listIndex, allLines[..]);
    return None;
  }

  /** One turn of RewriteMarked's loop: rewrite the k-th listed line, or report why it cannot be. */
  method RewriteAt(allLines: array<string>, ghost lines: seq<string>, listIndex: seq<nat>, k: nat, newVersion: string)
    returns (failure: Option<Exception>)
    requires k < |listIndex| && allLines.Length == |lines|
    requires RewrittenBelow(lines, newVersion, listIndex, k, allLines[..])
    modifies allLines
    ensures failure.None? ==> RewrittenBelow(lines, newVersion, listIndex, k + 1, allLines[..])
    ensures failure.Some? ==> UpVersionLines(lines, newVersion) == Err(failure.value)
  {
    var curIndex := listIndex[k];
    var lineStr := allLines[curIndex];
    var changed := ChangeVersionInLine(lineStr, newVersion);
    if changed.Err? {
      RewriteFailsAt(lines, newVersion, listIndex, k, allLines[..]);
      return Some(changed.error);
    }
    ghost var before := allLines[..];
    allLines[curIndex] := changed.value;
    RewriteStep(lines, newVersion, listIndex, k, before, allLines[..]);
    return None;
  }

  /** The state of the array after the first k listed lines are rewritten: the marked lines
      below the k-th listed index are rewritable and rewritten, every other line is as read. */
  ghost predicate RewrittenBelow(lines: seq<string>, newVersion: string, listIndex: seq<nat>, k: nat,
                                 current: seq<string>)
  {
    var flags := MarkFlags(lines);
    var bound := Bound(listIndex, k, |lines|);
    listIndex == Indices(flags) && k <= |listIndex| && |current| == |lines|
    && (forall j :: 0 <= j < bound && j < |lines| && flags[j] ==> ChangeVersionInLine(lines[j], newVersion).Ok?)
    && (forall j :: 0 <= j < |lines| ==>
          current[j] == if j < bound && flags[j] then ChangeVersionInLine(lines[j], newVersion).value else lines[j])
  }

  lemma RewriteStep(lines: seq<string>, newVersion: string, listIndex: seq<nat>, k: nat,
                    before: seq<string>, after: seq<string>)
    requires RewrittenBelow(lines, newVersion, listIndex, k, before)
    requires k < |listIndex| && ChangeVersionInLine(before[listIndex[k]], newVersion).Ok?
    requires after == before[listIndex[k] := ChangeVersionInLine(before[listIndex[k]], newVersion).value]
    ensures RewrittenBelow(lines, newVersion, listIndex, k + 1, after)
  {
    var flags := MarkFlags(lines);
    var next := Bound(listIndex, k + 1, |lines|);
    forall j | 0 <= j < |lines|
      ensures j < next && flags[j] ==> ChangeVersionInLine(lines[j], newVersion).Ok?
      ensures after[j] == if j < next && flags[j] then ChangeVersionInLine(lines[j], newVersion).value else lines[j]
    {
      RewriteStepAt(lines, newVersion, listIndex, k, before, after, j);
    }
  }

  /** RewriteStep at one position j. */
  lemma RewriteStepAt(lines: seq<string>, newVersion: string, listIndex: seq<nat>, k: nat,
                      before: seq<string>, after: seq<string>, j: nat)
    requires RewrittenBelow(lines, newVersion, listIndex, k, before)
    requires k < |listIndex| && ChangeVersionInLine(before[listIndex[k]], newVersion).Ok?
    requires after == before[listIndex[k] := ChangeVersionInLine(before[listIndex[k]], newVersion).value]
    requires j < |lines|
    ensures var next := Bound(listIndex, k + 1, |lines|); var flags := MarkFlags(lines);
      (j < next && flags[j] ==> ChangeVersionInLine(lines[j], newVersion).Ok?)
      && after[j] == if j < next && flags[j] then ChangeVersionInLine(lines[j], newVersion).value else lines[j]
  {
    var flags := MarkFlags(lines);
    var x := listIndex[k];
    var next := Bound(listIndex, k + 1, |lines|);
    if k + 1 < |listIndex| {
      IndicesIncreasing(flags, k, k + 1);
    }
    if j < x || next <= j {
      assert after[j] == before[j];
    } else if j == x {
      assert before[x] == lines[x];
    } else {
      NotBetween(flags, listIndex, k, j);
      assert after[j] == before[j];
    }
  }

  lemma RewriteFailsAt(lines: seq<string>, newVersion: string, listIndex: seq<nat>, k: nat, current: seq<string>)
    requires RewrittenBelow(lines, newVersion, listIndex, k, current)
    requires k < |listIndex| && ChangeVersionInLine(current[listIndex[k]], newVersion).Err?
    ensures UpVersionLines(lines, newVersion) == Err(ChangeVersionInLine(current[listIndex[k]], newVersion).error)
  {
    var flags := MarkFlags(lines);
    var x := listIndex[k];
    assert flags[x] && Bound(listIndex, k, |lines|) == x;
    assert current[x] == lines[x];
    forall j | 0 <= j < x && Marked(lines[j])
      ensures ChangeVersionInLine(lines[j], newVersion).Ok?
    {
      assert flags[j];
    }
    UpVersionLinesFailsAt(lines, newVersion, x);
  }

  lemma RewriteFinished(lines: seq<string>, newVersion: string, listIndex: seq<nat>, current: seq<string>)
    requires RewrittenBelow(lines, newVersion, listIndex, |listIndex|, current)
    ensures UpVersionLines(lines, newVersion) == Ok(current)
  {
    var flags := MarkFlags(lines);
    assert forall j :: 0 <= j < |lines| ==> (flags[j] <==> Marked(lines[j]));
    UpVersionLinesOk(lines, newVersion);
    assert current == UpVersionLines(lines, newVersion).value;
  }

  /** The next listed index, or the end. */
  function Bound(listIndex: seq<nat>, k: nat, n: nat): nat
  {
    if k < |listIndex| then listIndex[k] else n
  }

  /** No marked position lies strictly between the k-th and the (k + 1)-th listed index. */
  lemma NotBetween(flags: seq<bool>, listIndex: seq<nat>, k: nat, j: nat)
    requires listIndex == Indices(flags) && k < |listIndex|
    requires listIndex[k] < j < Bound(listIndex, k + 1, |flags|) && j < |flags|
    ensures !flags[j]
  {
    if flags[j] {
      IndexListed(flags, j);
      var m :| 0 <= m < |listIndex| && listIndex[m] == j;
      if m < k {
        IndicesIncreasing(flags, m, k);
        assert false;
      } else if m > k + 1 {
        IndicesIncreasing(flags, k + 1, m);
        assert false;
      } else if m == k {
        assert false;
      } else {
        assert false;
      }
    }
  }

  /** No marked position comes before the first listed index. */
  lemma FirstIndexed(flags: seq<bool>, listIndex: seq<nat>)
    requires listIndex == Indices(flags)
    ensures forall j :: 0 <= j < Bound(listIndex, 0, |flags|) && j < |flags| ==> !flags[j]
  {
    forall j | 0 <= j < Bound(listIndex, 0, |flags|) && j < |flags|
      ensures !flags[j]
    {
      if flags[j] {
        IndexListed(flags, j);
        var m :| 0 <= m < |listIndex| && listIndex[m] == j;
        if m > 0 {
          IndicesIncreasing(flags, 0, m);
          assert false;
        } else {
          assert false;
        }
      }
    }
  }

  // =====================================================================
  // One project (UpdateAssemblyVersion)

  /** The files after UpVersion over each path in turn; the first failure stops the rest. */
  function UpVersionEach(files: Files, paths: seq<FilePath>, newVersion: string): Effect<()>
    decreases |paths|
  {
    if |paths| == 0 then Effect(Ok(()), files)
    else
      var e := UpVersionEach(files, paths[..|paths| - 1], newVersion);
      if e.result.Err? then e else UpVersionFile(e.files, paths[|paths| - 1], newVersion)
  }

  lemma {:induction false} UpVersionEachStops(files: Files, paths: seq<FilePath>, n: nat, newVersion: string)
    requires n <= |paths| && UpVersionEach(files, paths[..n], newVersion).result.Err?
    ensures UpVersionEach(files, paths, newVersion) == UpVersionEach(files, paths[..n], newVersion)
    decreases |paths|
  {
    if n < |paths| {
      var front := paths[..|paths| - 1];
      assert front[..n] == paths[..n];
      UpVersionEachStops(files, front, n, newVersion);
    } else {
      assert paths[..n] == paths;
    }
  }

  /** UpVersion over a list of files rewrites only those files: every other file keeps its
      content, and no file appears or disappears. */
  lemma {:induction false} UpVersionEachFrame(files: Files, paths: seq<FilePath>, newVersion: string)
    ensures var after := UpVersionEach(files, paths, newVersion).files;
      after.Keys == files.Keys && forall p :: p in files && p !in paths ==> after[p] == files[p]
    decreases |paths|
  {
    if |paths| > 0 {
      var front := paths[..|paths| - 1];
      UpVersionEachFrame(files, front, newVersion);
      assert forall p :: p in front ==> p in paths;
    }
  }

  /** UpdateAssemblyVersion: nothing happens unless the project file exists; then the
      Properties/AssemblyInfo.cs next to it is rewritten (when the version is not empty), and
      a missing Properties directory or AssemblyInfo.cs is an error. */
  function UpdateAssemblyEffect(directories: seq<FilePath>, listing: seq<FilePath>, files: Files,
                                path: Option<FilePath>, version: Option<string>): Effect<()>
  {
    if path.None? || path.value !in files then Effect(Ok(()), files)
    else
      match DirectoryName(path.value)
      case None => Effect(Err(ArgumentNull), files)
      case Some(dir) =>
        var dirName := Combine(dir, PropertiesFolderName);
        if dirName !in directories then Effect(Err(DirectoryNotFound(PathText(dirName))), files)
        else
          var found := FilesIn(listing, dirName, AssemblyFileName);
          if |found| == 0 then Effect(Err(Failed(NoAssemblyFileMessage)), files)
          else if IsNullOrEmpty(version) then Effect(Ok(()), files)
          else UpVersionEach(files, found, version.value)
  }

  /** The only file UpdateAssemblyVersion can change is the AssemblyInfo.cs in the Properties
      directory next to the project file, and it changes nothing when the version is empty. */
  lemma UpdateAssemblyTouchesOnlyAssemblyInfo(directories: seq<FilePath>, listing: seq<FilePath>, files: Files,
                                              path: Option<FilePath>, version: Option<string>)
    ensures var u := UpdateAssemblyEffect(directories, listing, files, path, version);
      u.files.Keys == files.Keys
      && (forall p :: p in files && p != Combine(PropertiesDir(path), AssemblyFileName) ==> u.files[p] == files[p])
      && (IsNullOrEmpty(version) ==> u.files == files)
  {
    var u := UpdateAssemblyEffect(directories, listing, files, path, version);
    if path.Some? && path.value in files && DirectoryName(path.value).Some? {
      var dirName := PropertiesDir(path);
      if dirName in directories {
        var found := FilesIn(listing, dirName, AssemblyFileName);
        if |found| > 0 && !IsNullOrEmpty(version) {
          assert u == UpVersionEach(files, found, version.value);
          AssemblyFileNameIsLiteral();
          FilesInLiteralOnly(listing, dirName, AssemblyFileName);
          UpVersionEachOnly(files, found, version.value, Combine(dirName, AssemblyFileName));
        }
      }
    }
  }

  /** UpVersion over copies of one file changes no other file. */
  lemma UpVersionEachOnly(files: Files, paths: seq<FilePath>, newVersion: string, target: FilePath)
    requires forall p :: p in paths ==> p == target
    ensures var after := UpVersionEach(files, paths, newVersion).files;
      after.Keys == files.Keys && forall p :: p in files && p != target ==> after[p] == files[p]
  {
    UpVersionEachFrame(files, paths, newVersion);
  }

  method UpdateAssemblyVersion(disk: Disk, project: ProjectInfo, version: Option<string>) returns (r: Result<()>)
    requires disk.Valid()
    modifies disk
    ensures disk.Valid()
    ensures Effect(r, disk.files) == UpdateAssemblyEffect(disk.directories, disk.listing, old(disk.files), project.path, version)
  {
    if project.path.None? || !disk.FileExists(project.path.value) {
      return Ok(());
    }
    var dir := DirectoryName(project.path.value);
    if dir.None? {
      return Err(ArgumentNull);
    }
    var dirName := Combine(dir.value, PropertiesFolderName);
    var listed := disk.TopFiles(dirName, AssemblyFileName);
    if listed.Err? {
      return Err(listed.error);
    }
    var files := listed.value;
    if |files| > 0 {
      r := UpVersionFiles(disk, files, version);
    } else {
      return Err(Failed(NoAssemblyFileMessage));
    }
  }

  /** UpdateAssemblyVersion's loop over the AssemblyInfo.cs files found: each is rewritten in
      turn when the version is not empty, and the first failure escapes. */
  method UpVersionFiles(disk: Disk, files: seq<FilePath>, version: Option<string>) returns (r: Result<()>)
    requires disk.Valid()
    modifies disk
    ensures disk.Valid()
    ensures IsNullOrEmpty(version) ==> r == Ok(()) && disk.files == old(disk.files)
    ensures !IsNullOrEmpty(version) ==> Effect(r, disk.files) == UpVersionEach(old(disk.files), files, version.value)
  {
    var i := 0;
    while i < |files|
      invariant 0 <= i <= |files| && disk.Valid()
      invariant IsNullOrEmpty(version) ==> disk.files == old(disk.files)
      invariant !IsNullOrEmpty(version) ==>
        Effect(Ok(()), disk.files) == UpVersionEach(old(disk.files), files[..i], version.value)
    {
      if !IsNullOrEmpty(version) {
        assert files[..i + 1][..i] == files[..i];
        var step := UpVersion(disk, files[i], version.value);
        if step.Err? {
          UpVersionEachStops(old(disk.files), files, i + 1, version.value);
          return Err(step.error);
        }
      }
      i := i + 1;
    }
    assert files[..i] == files;
    return Ok(());
  }

  // =====================================================================
  // A batch of projects (IncreaseVersion)

  /** What the body of the loop does to one project: the files after the update, the
      project's versions after re-reading them, and the exception that stopped it. */
  datatype ItemOutcome = ItemOutcome(files: Files, versions: AssemblyVersions, error: Option<Exception>)

  /** UpdateAssemblyVersion then GetAssemblyInfo; a failed update leaves the versions unread. */
  function IncreaseOutcome(directories: seq<FilePath>, listing: seq<FilePath>, files: Files,
                           path: Option<FilePath>, version: Option<string>, init: AssemblyVersions): ItemOutcome
  {
    var u := UpdateAssemblyEffect(directories, listing, files, path, version);
    if u.result.Err? then ItemOutcome(u.files, init, Some(u.result.error))
    else
      var a := AssemblyInfoRead(directories, listing, u.files, path, init);
      ItemOutcome(u.files, a.value, a.error)
  }

  /** A project whose AssemblyInfo.cs sits, listed once, in the Properties directory next to its
      project file, and whose marked lines can all be rewritten to a non-empty version without
      quotes, comes through its turn with no error: the file holds the rewritten lines, and each
      field reads the new version when some rewritten line feeds it and keeps its value otherwise. */
  lemma IncreaseOutcomeReadsBack(directories: seq<FilePath>, listing: seq<FilePath>, files: Files,
                                 path: FilePath, v: string, init: AssemblyVersions, m: Marker)
    requires path in files && DirectoryName(path).Some? && PropertiesDir(Some(path)) in directories
    requires Distinct(listing)
    requires Combine(PropertiesDir(Some(path)), AssemblyFileName) in listing
    requires ReadAllLines(files, Combine(PropertiesDir(Some(path)), AssemblyFileName)).Ok?
    requires v != "" && '"' !in v && m != Unmarked
    requires var lines := ReadAllLines(files, Combine(PropertiesDir(Some(path)), AssemblyFileName)).value;
      forall j :: 0 <= j < |lines| && Marked(lines[j]) ==> ChangeVersionInLine(lines[j], v).Ok?
    ensures var target := Combine(PropertiesDir(Some(path)), AssemblyFileName);
      var lines := ReadAllLines(files, target).value;
      var o := IncreaseOutcome(directories, listing, files, Some(path), Some(v), init);
      UpVersionLines(lines, v).Ok?
      && var r := UpVersionLines(lines, v).value;
      o.error == None && o.files == files[target := Lines(r)]
      && Field(o.versions, m) == if exists j :: 0 <= j < |r| && Feeds(r[j], m) then Some(v) else Field(init, m)
  {
    var target := Combine(PropertiesDir(Some(path)), AssemblyFileName);
    var lines := ReadAllLines(files, target).value;
    UpdateRewritesAssemblyInfo(directories, listing, files, path, v);
    UpVersionLinesOk(lines, v);
    var r := UpVersionLines(lines, v).value;
    AssemblyInfoScansFile(directories, listing, files[target := Lines(r)], Some(path), init, r);
    RewrittenLinesRead(lines, v, init, m);
  }

  /** With the AssemblyInfo.cs listed once, UpdateAssemblyVersion rewrites just that file. */
  lemma UpdateRewritesAssemblyInfo(directories: seq<FilePath>, listing: seq<FilePath>, files: Files,
                                   path: FilePath, v: string)
    requires path in files && DirectoryName(path).Some? && PropertiesDir(Some(path)) in directories
    requires Distinct(listing) && Combine(PropertiesDir(Some(path)), AssemblyFileName) in listing
    requires v != ""
    ensures UpdateAssemblyEffect(directories, listing, files, Some(path), Some(v))
      == UpVersionFile(files, Combine(PropertiesDir(Some(path)), AssemblyFileName), v)
  {
    var dirName := PropertiesDir(Some(path));
    var target := Combine(dirName, AssemblyFileName);
    assert dirName == Combine(DirectoryName(path).value, PropertiesFolderName);
    AssemblyInfoFoundOnce(listing, dirName);
    assert !IsNullOrEmpty(Some(v));
    assert UpdateAssemblyEffect(directories, listing, files, Some(path), Some(v)) == UpVersionEach(files, [target], v);
    assert [target][..0] == [];
    assert UpVersionEach(files, [], v) == Effect(Ok(()), files);
  }

  /** Scanning lines UpVersion has rewritten stops at no line, and each field reads the new
      version when some rewritten line feeds it. */
  lemma RewrittenLinesRead(lines: seq<string>, v: string, init: AssemblyVersions, m: Marker)
    requires '"' !in v && m != Unmarked
    requires forall j :: 0 <= j < |lines| && Marked(lines[j]) ==> ChangeVersionInLine(lines[j], v).Ok?
    ensures UpVersionLines(lines, v).Ok?
    ensures var r := UpVersionLines(lines, v).value;
      var p := ScanLines(r, init);
      p.error == None
      && Field(p.value, m) == if exists j :: 0 <= j < |r| && Feeds(r[j], m) then Some(v) else Field(init, m)
  {
    UpVersionLinesOk(lines, v);
    UpVersionThenRead(lines, v);
    var r := UpVersionLines(lines, v).value;
    forall j | 0 <= j < |r|
      ensures !VsProjectHelper.Unreadable(r[j]) && (Feeds(r[j], m) ==> ReadAsemblyVersion(r[j]) == Ok(v))
    {
      MarkedFeedsSomeField(lines[j]);
    }
    ScanLinesLastWins(r, init, m);
  }

  /** Properties holds one AssemblyInfo.cs when it is listed and the listing names no file twice. */
  lemma AssemblyInfoFoundOnce(listing: seq<FilePath>, dir: FilePath)
    requires |dir| > 0 && Combine(dir, AssemblyFileName) in listing
    requires Distinct(listing)
    ensures FilesIn(listing, dir, AssemblyFileName) == [Combine(dir, AssemblyFileName)]
  {
    AssemblyFileNameIsLiteral();
    FilesInLiteral(listing, dir, AssemblyFileName);
    FilesInLiteralOnly(listing, dir, AssemblyFileName);
    FilesInDistinct(listing, dir, AssemblyFileName);
  }

  /** The body of IncreaseVersion's loop for one project. */
  method IncreaseOne(disk: Disk, pr: ProjectInfo, version: Option<string>)
    returns (failure: Option<Exception>, ghost o: ItemOutcome)
    requires disk.Valid()
    modifies disk, pr
    ensures disk.Valid()
    ensures pr.name == old(pr.name) && pr.path == old(pr.path) && pr.items == old(pr.items) && pr.refVersion == old(pr.refVersion)
    ensures o == IncreaseOutcome(disk.directories, disk.listing, old(disk.files), pr.path, version, old(pr.Versions()))
    ensures disk.files == o.files && pr.Versions() == o.versions && failure == o.error
  {
    var updated := UpdateAssemblyVersion(disk, pr, version);
    if updated.Err? {
      failure := Some(updated.error);
    } else {
      failure := pr.GetAssemblyInfo(disk);
    }
    o := ItemOutcome(disk.files, pr.Versions(), failure);
  }

  /** Between two states, no project has changed its name, its items or its RefVersion. */
  twostate predicate FieldsKept(items: seq<ProjectInfo>)
    reads items
  {
    forall m :: 0 <= m < |items| ==>
      items[m].name == old(items[m].name) && items[m].items == old(items[m].items) && items[m].refVersion == old(items[m].refVersion)
  }

  /** The paths of the projects. */
  function Paths(items: seq<ProjectInfo>): (r: seq<Option<FilePath>>)
    reads items
    ensures |r| == |items| && forall i :: 0 <= i < |items| ==> r[i] == items[i].path
  {
    if |items| == 0 then [] else Paths(items[..|items| - 1]) + [items[|items| - 1].path]
  }

  /** The assembly versions of the projects. */
  function VersionsOf(items: seq<ProjectInfo>): (r: seq<AssemblyVersions>)
    reads items
    ensures |r| == |items| && forall i :: 0 <= i < |items| ==> r[i] == items[i].Versions()
  {
    if |items| == 0 then [] else VersionsOf(items[..|items| - 1]) + [items[|items| - 1].Versions()]
  }

  /** The outcomes of a batch processed in turn: each project starts from the files the
      previous one left (the first from `files`) and from its versions `starts[i]` at the
      moment it is reached; a failing project does not stop the next one. */
  function BatchOutcomes(directories: seq<FilePath>, listing: seq<FilePath>, version: Option<string>,
                         paths: seq<Option<FilePath>>, files: Files, starts: seq<AssemblyVersions>): (r: seq<ItemOutcome>)
    requires |starts| == |paths|
    ensures |r| == |paths|
  {
    if |paths| == 0 then []
    else
      var n := |paths| - 1;
      var prev := BatchOutcomes(directories, listing, version, paths[..n], files, starts[..n]);
      prev + [IncreaseOutcome(directories, listing, FilesAfter(files, prev), paths[n], version, starts[n])]
  }

  /** The files after a sequence of outcomes. */
  function FilesAfter(files: Files, outcomes: seq<ItemOutcome>): Files
  {
    if |outcomes| == 0 then files else outcomes[|outcomes| - 1].files
  }

  /** IncreaseVersion: one result per selected project, in order, each carrying the message of
      the exception that stopped that project; one failure does not stop the next project.
      `starts[i]` and `outcomes[i].versions` are the i-th project's versions when it is reached
      and right after it is processed. */
  method IncreaseVersion(disk: Disk, selectedItems: seq<ProjectInfo>, version: Option<string>)
    returns (result: seq<ResultInfo<ProjectInfo>>, ghost starts: seq<AssemblyVersions>, ghost outcomes: seq<ItemOutcome>)
    requires disk.Valid()
    modifies disk, selectedItems
    ensures disk.Valid()
    ensures |result| == |selectedItems| && |starts| == |selectedItems|
    ensures Paths(selectedItems) == old(Paths(selectedItems))
    ensures FieldsKept(selectedItems)
    ensures outcomes == BatchOutcomes(disk.directories, disk.listing, version, Paths(selectedItems), old(disk.files), starts)
    ensures disk.files == FilesAfter(old(disk.files), outcomes)
    ensures forall i :: 0 <= i < |selectedItems| && (forall j :: i < j < |selectedItems| ==> selectedItems[j] != selectedItems[i]) ==>
      selectedItems[i].Versions() == outcomes[i].versions
    ensures forall i :: 0 <= i < |selectedItems| && (forall j :: 0 <= j < i ==> selectedItems[j] != selectedItems[i]) ==>
      starts[i] == old(selectedItems[i].Versions())
    ensures forall k, i ::
      0 <= k < i < |selectedItems| && selectedItems[k] == selectedItems[i] &&
      (forall j :: k < j < i ==> selectedItems[j] != selectedItems[i]) ==>
      starts[i] == outcomes[k].versions
    ensures forall i :: 0 <= i < |result| ==>
      result[i].data == selectedItems[i] && result[i].sourceProjectName == None
      && result[i].error == ErrorText(outcomes[i].error)
  {
    var failures;
    failures, starts, outcomes := IncreaseAll(disk, selectedItems, version);
    result := NewResults(selectedItems, failures);
  }

  /** IncreaseVersion's loop: each project in turn, collecting the exceptions that stopped them. */
  method IncreaseAll(disk: Disk, selectedItems: seq<ProjectInfo>, version: Option<string>)
    returns (failures: seq<Option<Exception>>, ghost starts: seq<AssemblyVersions>, ghost outcomes: seq<ItemOutcome>)
    requires disk.Valid()
    modifies disk, selectedItems
    ensures disk.Valid()
    ensures |failures| == |selectedItems| && |starts| == |selectedItems|
    ensures Paths(selectedItems) == old(Paths(selectedItems))
    ensures FieldsKept(selectedItems)
    ensures outcomes == BatchOutcomes(disk.directories, disk.listing, version, Paths(selectedItems), old(disk.files), starts)
    ensures disk.files == FilesAfter(old(disk.files), outcomes)
    ensures forall i :: 0 <= i < |failures| ==> failures[i] == outcomes[i].error
    ensures Tracked(selectedItems, VersionsOf(selectedItems), old(VersionsOf(selectedItems)), starts, outcomes, |selectedItems|)
  {
    ghost var paths := Paths(selectedItems);
    ghost var files := disk.files;
    ghost var entry := VersionsOf(selectedItems);
    failures := [];
    starts := [];
    outcomes := [];
    var i := 0;
    while i < |selectedItems|
      invariant 0 <= i <= |selectedItems| && disk.Valid() && |failures| == i && |starts| == i
      invariant forall m :: 0 <= m < |selectedItems| ==> selectedItems[m].path == paths[m]
      invariant outcomes == BatchOutcomes(disk.directories, disk.listing, version, paths[..i], files, starts)
      invariant disk.files == FilesAfter(files, outcomes)
      invariant forall m :: 0 <= m < i ==> failures[m] == outcomes[m].error
      invariant entry == old(VersionsOf(selectedItems))
      invariant FieldsKept(selectedItems)
      invariant Tracked(selectedItems, VersionsOf(selectedItems), entry, starts, outcomes, i)
    {
      failures, starts, outcomes := TrackedIncreaseStep(disk, selectedItems, version, paths, files, entry, failures, starts, outcomes);
      i := i + 1;
    }
    assert paths[..i] == paths;
    assert Paths(selectedItems) == paths;
  }

  /** IncreaseStep together with what the turn does to the projects' versions. */
  method TrackedIncreaseStep(disk: Disk, selectedItems: seq<ProjectInfo>, version: Option<string>,
                             ghost paths: seq<Option<FilePath>>, ghost files: Files, ghost entry: seq<AssemblyVersions>,
                             failures: seq<Option<Exception>>, ghost starts: seq<AssemblyVersions>, ghost outcomes: seq<ItemOutcome>)
    returns (failures': seq<Option<Exception>>, ghost starts': seq<AssemblyVersions>, ghost outcomes': seq<ItemOutcome>)
    requires disk.Valid() && |failures| == |starts| < |selectedItems| == |paths|
    requires forall m :: 0 <= m < |selectedItems| ==> selectedItems[m].path == paths[m]
    requires outcomes == BatchOutcomes(disk.directories, disk.listing, version, paths[..|failures|], files, starts)
    requires disk.files == FilesAfter(files, outcomes)
    requires forall m :: 0 <= m < |failures| ==> failures[m] == outcomes[m].error
    requires Tracked(selectedItems, VersionsOf(selectedItems), entry, starts, outcomes, |failures|)
    modifies disk, selectedItems[|failures|]
    ensures disk.Valid() && |failures'| == |starts'| == |failures| + 1
    ensures forall m :: 0 <= m < |selectedItems| ==> selectedItems[m].path == paths[m]
    ensures FieldsKept(selectedItems)
    ensures outcomes' == BatchOutcomes(disk.directories, disk.listing, version, paths[..|failures'|], files, starts')
    ensures disk.files == FilesAfter(files, outcomes')
    ensures forall m :: 0 <= m < |failures'| ==> failures'[m] == outcomes'[m].error
    ensures Tracked(selectedItems, VersionsOf(selectedItems), entry, starts', outcomes', |failures'|)
  {
    ghost var before := VersionsOf(selectedItems);
    failures', starts', outcomes' := IncreaseStep(disk, selectedItems, version, paths, files, failures, starts, outcomes);
    ghost var n := |failures|;
    assert outcomes' == outcomes + [outcomes'[n]];
    TrackedStep(selectedItems, before, VersionsOf(selectedItems), entry, starts, outcomes, outcomes'[n], n);
  }

  /** One turn of IncreaseAll's loop: the next project's outcome extends the batch so far. */
  method IncreaseStep(disk: Disk, selectedItems: seq<ProjectInfo>, version: Option<string>,
                      ghost paths: seq<Option<FilePath>>, ghost files: Files, failures: seq<Option<Exception>>,
                      ghost starts: seq<AssemblyVersions>, ghost outcomes: seq<ItemOutcome>)
    returns (failures': seq<Option<Exception>>, ghost starts': seq<AssemblyVersions>, ghost outcomes': seq<ItemOutcome>)
    requires disk.Valid() && |failures| == |starts| < |selectedItems| == |paths|
    requires forall m :: 0 <= m < |selectedItems| ==> selectedItems[m].path == paths[m]
    requires outcomes == BatchOutcomes(disk.directories, disk.listing, version, paths[..|failures|], files, starts)
    requires disk.files == FilesAfter(files, outcomes)
    requires forall m :: 0 <= m < |failures| ==> failures[m] == outcomes[m].error
    modifies disk, selectedItems[|failures|]
    ensures disk.Valid() && |failures'| == |starts'| == |failures| + 1
    ensures forall m :: 0 <= m < |selectedItems| ==> selectedItems[m].path == paths[m]
    ensures FieldsKept(selectedItems)
    ensures outcomes' == BatchOutcomes(disk.directories, disk.listing, version, paths[..|failures'|], files, starts')
    ensures disk.files == FilesAfter(files, outcomes')
    ensures forall m :: 0 <= m < |failures'| ==> failures'[m] == outcomes'[m].error
    ensures starts' == starts + [old(selectedItems[|failures|].Versions())] && outcomes'[..|failures|] == outcomes
    ensures forall m :: 0 <= m < |selectedItems| ==>
      selectedItems[m].Versions()
        == (if selectedItems[m] == selectedItems[|failures|] then outcomes'[|failures|].versions else old(selectedItems[m].Versions()))
  {
    var i := |failures|;
    var pr := selectedItems[i];
    ghost var start := pr.Versions();
    var failure;
    ghost var o;
    failure, o := IncreaseOne(disk, pr, version);
    BatchOutcomesSnoc(disk.directories, disk.listing, version, paths, files, starts, start, i, o);
    failures' := failures + [failure];
    starts' := starts + [start];
    outcomes' := outcomes + [o];
  }

  /** What a batch has done to the projects' versions after its first n turns, with `now[m]` the
      m-th project's versions at that point and `entry[m]` its versions before the batch. */
  ghost predicate Tracked(items: seq<ProjectInfo>, now: seq<AssemblyVersions>, entry: seq<AssemblyVersions>,
                          starts: seq<AssemblyVersions>, outcomes: seq<ItemOutcome>, n: nat)
  {
    n <= |items| == |now| == |entry| && |starts| == |outcomes| == n
    && LastTurnsHeld(items, now, outcomes, n) && UnreachedHeld(items, now, entry, n)
    && FirstTurnsStart(items, entry, starts, n) && LaterTurnsStart(items, starts, outcomes, n)
  }

  /** A project's last turn so far left the versions of its outcome. */
  ghost predicate LastTurnsHeld(items: seq<ProjectInfo>, now: seq<AssemblyVersions>, outcomes: seq<ItemOutcome>, n: nat)
    requires n <= |items| == |now| && |outcomes| == n
  {
    forall m :: 0 <= m < n && (forall j :: m < j < n ==> items[j] != items[m]) ==> now[m] == outcomes[m].versions
  }

  /** A project not reached yet still has its versions from before the batch. */
  ghost predicate UnreachedHeld(items: seq<ProjectInfo>, now: seq<AssemblyVersions>, entry: seq<AssemblyVersions>, n: nat)
    requires n <= |items| == |now| == |entry|
  {
    forall m :: 0 <= m < |items| && (forall j :: 0 <= j < n ==> items[j] != items[m]) ==> now[m] == entry[m]
  }

  /** A project's first turn starts from its versions before the batch. */
  ghost predicate FirstTurnsStart(items: seq<ProjectInfo>, entry: seq<AssemblyVersions>, starts: seq<AssemblyVersions>, n: nat)
    requires n <= |items| == |entry| && |starts| == n
  {
    forall m :: 0 <= m < n && (forall j :: 0 <= j < m ==> items[j] != items[m]) ==> starts[m] == entry[m]
  }

  /** A project's later turn starts from the outcome of its previous turn. */
  ghost predicate LaterTurnsStart(items: seq<ProjectInfo>, starts: seq<AssemblyVersions>, outcomes: seq<ItemOutcome>, n: nat)
    requires n <= |items| && |starts| == |outcomes| == n
  {
    forall k, m :: 0 <= k < m < n && items[k] == items[m] && (forall j :: k < j < m ==> items[j] != items[m]) ==>
      starts[m] == outcomes[k].versions
  }

  /** Turn n leaves project n, and every other entry for the same project, at the outcome's
      versions, and starts from the versions project n had. */
  lemma TrackedStep(items: seq<ProjectInfo>, before: seq<AssemblyVersions>, after: seq<AssemblyVersions>,
                    entry: seq<AssemblyVersions>, starts: seq<AssemblyVersions>,
                    outcomes: seq<ItemOutcome>, o: ItemOutcome, n: nat)
    requires Tracked(items, before, entry, starts, outcomes, n) && n < |items| && |after| == |items|
    requires forall m :: 0 <= m < |items| && items[m] == items[n] ==> before[m] == before[n]
    requires forall m :: 0 <= m < |items| ==> after[m] == if items[m] == items[n] then o.versions else before[m]
    ensures Tracked(items, after, entry, starts + [before[n]], outcomes + [o], n + 1)
  {
    LastTurnsStep(items, before, after, outcomes, o, n);
    UnreachedStep(items, before, after, entry, n);
    FirstTurnsStep(items, before, entry, starts, n);
    LaterTurnsStep(items, before, starts, outcomes, o, n);
  }

  /** Turn n is project n's last turn so far, and the other projects' last turns are unchanged. */
  lemma LastTurnsStep(items: seq<ProjectInfo>, before: seq<AssemblyVersions>, after: seq<AssemblyVersions>,
                      outcomes: seq<ItemOutcome>, o: ItemOutcome, n: nat)
    requires n < |items| == |before| == |after| && |outcomes| == n && LastTurnsHeld(items, before, outcomes, n)
    requires forall m :: 0 <= m < |items| ==> after[m] == if items[m] == items[n] then o.versions else before[m]
    ensures LastTurnsHeld(items, after, outcomes + [o], n + 1)
  {
    var outcomes' := outcomes + [o];
    forall m | 0 <= m < n + 1 && (forall j :: m < j < n + 1 ==> items[j] != items[m])
      ensures after[m] == outcomes'[m].versions
    {
      if m < n {
        assert items[n] != items[m];
        assert forall j :: m < j < n ==> items[j] != items[m];
      }
    }
  }

  /** Turn n touches only project n. */
  lemma UnreachedStep(items: seq<ProjectInfo>, before: seq<AssemblyVersions>, after: seq<AssemblyVersions>,
                      entry: seq<AssemblyVersions>, n: nat)
    requires n < |items| == |before| == |after| == |entry| && UnreachedHeld(items, before, entry, n)
    requires forall m :: 0 <= m < |items| && items[m] != items[n] ==> after[m] == before[m]
    ensures UnreachedHeld(items, after, entry, n + 1)
  {
    forall m | 0 <= m < |items| && (forall j :: 0 <= j < n + 1 ==> items[j] != items[m])
      ensures after[m] == entry[m]
    {
      assert items[n] != items[m];
      assert forall j :: 0 <= j < n ==> items[j] != items[m];
    }
  }

  /** When turn n is project n's first turn, project n was not reached before, so it starts from its entry versions. */
  lemma FirstTurnsStep(items: seq<ProjectInfo>, before: seq<AssemblyVersions>, entry: seq<AssemblyVersions>,
                       starts: seq<AssemblyVersions>, n: nat)
    requires n < |items| == |before| == |entry| && |starts| == n
    requires FirstTurnsStart(items, entry, starts, n) && UnreachedHeld(items, before, entry, n)
    ensures FirstTurnsStart(items, entry, starts + [before[n]], n + 1)
  {
    var starts' := starts + [before[n]];
    forall m | 0 <= m < n + 1 && (forall j :: 0 <= j < m ==> items[j] != items[m])
      ensures starts'[m] == entry[m]
    {
      if m == n {
        assert forall j :: 0 <= j < n ==> items[j] != items[n];
      }
    }
  }

  /** When turn n repeats a project, its previous turn was that project's last one, whose outcome it starts from. */
  lemma LaterTurnsStep(items: seq<ProjectInfo>, before: seq<AssemblyVersions>, starts: seq<AssemblyVersions>,
                       outcomes: seq<ItemOutcome>, o: ItemOutcome, n: nat)
    requires n < |items| == |before| && |starts| == |outcomes| == n
    requires LaterTurnsStart(items, starts, outcomes, n) && LastTurnsHeld(items, before, outcomes, n)
    requires forall m :: 0 <= m < |items| && items[m] == items[n] ==> before[m] == before[n]
    ensures LaterTurnsStart(items, starts + [before[n]], outcomes + [o], n + 1)
  {
    var starts', outcomes' := starts + [before[n]], outcomes + [o];
    forall k, m | 0 <= k < m < n + 1 && items[k] == items[m] && (forall j :: k < j < m ==> items[j] != items[m])
      ensures starts'[m] == outcomes'[k].versions
    {
      if m == n {
        assert forall j :: k < j < n ==> items[j] != items[k];
        assert before[k] == outcomes[k].versions;
      }
    }
  }

  /** The results reported for a batch, one new ResultInfo per item with the message of the
      exception that stopped it. */
  method NewResults(items: seq<ProjectInfo>, failures: seq<Option<Exception>>) returns (results: seq<ResultInfo<ProjectInfo>>)
    requires |failures| == |items|
    ensures |results| == |items|
    ensures forall i :: 0 <= i < |results| ==>
      results[i].data == items[i] && results[i].sourceProjectName == None
      && results[i].error == ErrorText(failures[i])
  {
    results := [];
    var i := 0;
    while i < |items|
      invariant 0 <= i <= |items| && |results| == i
      invariant forall m :: 0 <= m < i ==>
        results[m].data == items[m] && results[m].sourceProjectName == None
        && results[m].error == ErrorText(failures[m])
    {
      var r := NewResult(items[i], failures[i]);
      results := results + [r];
      i := i + 1;
    }
  }

  /** The result reported for one project: the message of the exception that stopped it, if any. */
  method NewResult(pr: ProjectInfo, failure: Option<Exception>) returns (r: ResultInfo<ProjectInfo>)
    ensures r.data == pr && r.sourceProjectName == None
    ensures r.error == ErrorText(failure)
  {
    var error: Option<string> := None;
    if failure.Some? {
      error := Some(Message(failure.value));
    }
    r := ResultInfo(pr, error, None);
  }

  /** The batch of the first i + 1 projects is the batch of the first i followed by the outcome
      of the (i + 1)-th. */
  lemma BatchOutcomesSnoc(directories: seq<FilePath>, listing: seq<FilePath>, version: Option<string>,
                          paths: seq<Option<FilePath>>, files: Files, starts: seq<AssemblyVersions>,
                          start: AssemblyVersions, i: nat, o: ItemOutcome)
    requires i < |paths| && |starts| == i
    requires o == IncreaseOutcome(directories, listing,
      FilesAfter(files, BatchOutcomes(directories, listing, version, paths[..i], files, starts)), paths[i], version, start)
    ensures BatchOutcomes(directories, listing, version, paths[..i + 1], files, starts + [start])
      == BatchOutcomes(directories, listing, version, paths[..i], files, starts) + [o]
  {
    assert paths[..i + 1][..i] == paths[..i];
    assert (starts + [start])[..i] == starts;
  }

  // =====================================================================
  // Building packages (BuildNuget)

  /** The names of the projects. */
  function Names(projects: seq<ProjectInfo>): (r: seq<Option<string>>)
    reads projects
    ensures |r| == |projects| && forall i :: 0 <= i < |projects| ==> r[i] == projects[i].name
  {
    if |projects| == 0 then [] else Names(projects[..|projects| - 1]) + [projects[|projects| - 1].name]
  }

  /** One "{Name}: {message}" per project whose build threw, in project order. */
  function BuildErrors(names: seq<Option<string>>, outcomes: seq<Option<Exception>>): seq<string>
    requires |names| == |outcomes|
  {
    if |names| == 0 then []
    else
      var n := |names| - 1;
      BuildErrors(names[..n], outcomes[..n])
        + if outcomes[n].Some? then [NameText(names[n]) + ": " + Message(outcomes[n].value)] else []
  }

  /** Which builds threw. */
  function Failures(outcomes: seq<Option<Exception>>): (flags: seq<bool>)
    ensures |flags| == |outcomes| && forall i :: 0 <= i < |outcomes| ==> flags[i] == outcomes[i].Some?
  {
    seq(|outcomes|, i requires 0 <= i < |outcomes| => outcomes[i].Some?)
  }

  /** The k-th error belongs to the k-th failing project, and there is one per failing project. */
  lemma {:induction false} BuildErrorsAreFailures(names: seq<Option<string>>, outcomes: seq<Option<Exception>>)
    requires |names| == |outcomes|
    ensures var failing := Indices(Failures(outcomes));
      var errors := BuildErrors(names, outcomes);
      |errors| == |failing| && forall k :: 0 <= k < |failing| ==>
        errors[k] == NameText(names[failing[k]]) + ": " + Message(outcomes[failing[k]].value)
    decreases |names|
  {
    if |names| > 0 {
      var n := |names| - 1;
      BuildErrorsAreFailures(names[..n], outcomes[..n]);
      assert Failures(outcomes)[..n] == Failures(outcomes[..n]);
    }
  }

  /** BuildNuget: MSBuild runs once per selected project; `outcomes[i]` is what the i-th build
      threw, if anything. */
  method BuildNuget(selectedProject: seq<ProjectInfo>, outcomes: seq<Option<Exception>>) returns (errors: seq<string>)
    requires |outcomes| == |selectedProject|
    ensures errors == BuildErrors(Names(selectedProject), outcomes)
  {
    errors := [];
    var i := 0;
    while i < |selectedProject|
      invariant 0 <= i <= |selectedProject|
      invariant errors == BuildErrors(Names(selectedProject)[..i], outcomes[..i])
    {
      var project := selectedProject[i];
      assert Names(selectedProject)[..i + 1][..i] == Names(selectedProject)[..i];
      assert outcomes[..i + 1][..i] == outcomes[..i];
      if outcomes[i].Some? {
        errors := errors + [NameText(project.name) + ": " + Message(outcomes[i].value)];
      }
      i := i + 1;
    }
    assert Names(selectedProject)[..i] == Names(selectedProject);
    assert outcomes[..i] == outcomes;
  }

  // =====================================================================
  // Discovery (GetItems)

  /** The project files GetItems finds: those matching the filter directly inside each folder,
      folder by folder. */
  function ProjectFiles(listing: seq<FilePath>, folders: seq<FilePath>, filter: string): seq<FilePath>
  {
    if |folders| == 0 then []
    else ProjectFiles(listing, folders[..|folders| - 1], filter) + FilesIn(listing, folders[|folders| - 1], filter)
  }

  /** A file is found exactly when it matches the filter and its directory is one of the folders. */
  lemma {:induction false} ProjectFilesAre(listing: seq<FilePath>, folders: seq<FilePath>, filter: string)
    ensures forall p :: p in ProjectFiles(listing, folders, filter) <==>
      p in listing && Matches(filter, FileName(p)) && DirectoryName(p).Some? && DirectoryName(p).value in folders
    decreases |folders|
  {
    if |folders| > 0 {
      var front := folders[..|folders| - 1];
      ProjectFilesAre(listing, front, filter);
      assert forall d :: d in folders <==> d in front || d == folders[|folders| - 1];
    }
  }

  /** The folders are the directories strictly below the root, so a project file directly in
      the root is never found, and every matching file in a directory below it is. */
  lemma ProjectFilesUnderRoot(directories: seq<FilePath>, listing: seq<FilePath>, root: FilePath, filter: string)
    ensures forall p :: p in ProjectFiles(listing, DirectoriesUnder(directories, root), filter) <==>
      p in listing && Matches(filter, FileName(p)) && DirectoryName(p).Some?
      && DirectoryName(p).value in directories && IsStrictlyUnder(DirectoryName(p).value, root)
    ensures forall p :: p in ProjectFiles(listing, DirectoriesUnder(directories, root), filter) ==>
      DirectoryName(p) != Some(root)
  {
    ProjectFilesAre(listing, DirectoriesUnder(directories, root), filter);
  }

  /** The versions a freshly built project reads. */
  function FreshRead(directories: seq<FilePath>, listing: seq<FilePath>, files: Files, f: FilePath): Partial<AssemblyVersions>
  {
    AssemblyInfoRead(directories, listing, files, Some(f), AssemblyVersions(None, None, None))
  }

  /** A project built from file `f` by BuildProjectInfo. */
  ghost predicate BuiltFrom(directories: seq<FilePath>, listing: seq<FilePath>, files: Files, pr: ProjectInfo, f: FilePath)
    reads pr
  {
    pr.path == Some(f) && pr.name == Some(FileNameWithoutExtension(f)) && pr.items == [] && pr.refVersion == None
    && pr.Versions() == FreshRead(directories, listing, files, f).value
  }

  /** Every file of fs reads its AssemblyInfo.cs without error. */
  predicate ReadsCleanly(directories: seq<FilePath>, listing: seq<FilePath>, files: Files, fs: seq<FilePath>)
  {
    forall f :: f in fs ==> FreshRead(directories, listing, files, f).error.None?
  }

  /** BuildProjectInfo: one project per file, each with its assembly versions read; the first
      failing read escapes. */
  method BuildProjectInfo(disk: Disk, files: seq<FilePath>) returns (r: Result<seq<ProjectInfo>>)
    ensures r.Ok? <==> ReadsCleanly(disk.directories, disk.listing, disk.files, files)
    ensures r.Ok? ==> |r.value| == |files| && forall k :: 0 <= k < |files| ==> BuiltFrom(disk.directories, disk.listing, disk.files, r.value[k], files[k])
    ensures r.Ok? ==> forall k :: 0 <= k < |r.value| ==> fresh(r.value[k])
  {
    ghost var directories, listing, contents := disk.directories, disk.listing, disk.files;
    var result: seq<ProjectInfo> := [];
    var i := 0;
    while i < |files|
      invariant 0 <= i <= |files| && |result| == i
      invariant forall k :: 0 <= k < i ==> BuiltCleanly(directories, listing, contents, result[k], files[k])
      invariant forall k :: 0 <= k < |result| ==> fresh(result[k])
    {
      var step := BuildOne(disk, files, result);
      if step.Err? {
        return Err(step.error);
      }
      result := step.value;
      i := i + 1;
    }
    return Ok(result);
  }

  /** A project built from file `f` whose read raised nothing. */
  ghost predicate BuiltCleanly(directories: seq<FilePath>, listing: seq<FilePath>, files: Files, pr: ProjectInfo, f: FilePath)
    reads pr
  {
    FreshRead(directories, listing, files, f).error.None? && BuiltFrom(directories, listing, files, pr, f)
  }

  /** One turn of BuildProjectInfo's loop: a new project for the next file, its versions read,
      or the exception of that read. */
  method BuildOne(disk: Disk, files: seq<FilePath>, result: seq<ProjectInfo>) returns (r: Result<seq<ProjectInfo>>)
    requires |result| < |files|
    requires forall k :: 0 <= k < |result| ==> BuiltCleanly(disk.directories, disk.listing, disk.files, result[k], files[k])
    ensures r.Err? ==> !ReadsCleanly(disk.directories, disk.listing, disk.files, files)
    ensures r.Ok? ==> (|r.value| == |result| + 1
      && (forall k :: 0 <= k < |result| ==> r.value[k] == result[k])
      && (forall k :: 0 <= k <= |result| ==> BuiltCleanly(disk.directories, disk.listing, disk.files, r.value[k], files[k])))
    ensures r.Ok? ==> fresh(r.value[|result|])
  {
    var i := |result|;
    var built := NewProject(disk, files[i]);
    if built.Err? {
      assert files[i] in files;
      return Err(built.error);
    }
    return Ok(result + [built.value]);
  }

  /** The body of BuildProjectInfo's loop for one file: a new project with its versions read. */
  method NewProject(disk: Disk, f: FilePath) returns (r: Result<ProjectInfo>)
    ensures r.Ok? <==> FreshRead(disk.directories, disk.listing, disk.files, f).error.None?
    ensures r.Ok? ==> fresh(r.value) && BuiltFrom(disk.directories, disk.listing, disk.files, r.value, f)
    ensures r.Err? ==> r.error == FreshRead(disk.directories, disk.listing, disk.files, f).error.value
  {
    var pr := new ProjectInfo(Some(f));
    var failure := pr.GetAssemblyInfo(disk);
    if failure.Some? {
      return Err(failure.value);
    }
    return Ok(pr);
  }

  /** GetItems: every project file directly inside a directory strictly below the root, in
      directory enumeration order, each with its assembly versions read; a missing root or a
      failing read escapes. */
  method GetItems(disk: Disk, rootDir: FilePath, projectFilter: string) returns (r: Result<seq<ProjectInfo>>)
    ensures rootDir !in disk.directories ==> r == Err(DirectoryNotFound(PathText(rootDir)))
    ensures rootDir in disk.directories ==>
      var found := ProjectFiles(disk.listing, DirectoriesUnder(disk.directories, rootDir), projectFilter);
      (r.Ok? <==> ReadsCleanly(disk.directories, disk.listing, disk.files, found))
      && (r.Ok? ==> |r.value| == |found| && forall k :: 0 <= k < |found| ==> BuiltFrom(disk.directories, disk.listing, disk.files, r.value[k], found[k]))
    ensures r.Ok? ==> forall k :: 0 <= k < |r.value| ==> fresh(r.value[k])
  {
    var listed := disk.AllDirectories(rootDir);
    if listed.Err? {
      return Err(listed.error);
    }
    var folders := listed.value;
    var result: seq<ProjectInfo> := [];
    var i := 0;
    while i < |folders|
      invariant 0 <= i <= |folders|
      invariant var found := ProjectFiles(disk.listing, folders[..i], projectFilter);
        |result| == |found| && ReadsCleanly(disk.directories, disk.listing, disk.files, found)
        && (forall k :: 0 <= k < |found| ==> BuiltFrom(disk.directories, disk.listing, disk.files, result[k], found[k]))
      invariant forall k :: 0 <= k < |result| ==> fresh(result[k])
    {
      var step := CollectFolder(disk, folders, i, projectFilter, result);
      if step.Err? {
        return Err(step.error);
      }
      result := step.value;
      i := i + 1;
    }
    assert folders[..i] == folders;
    return Ok(result);
  }

  /** One turn of GetItems' loop: the projects of folder i are appended, or the read that
      fails among them escapes. */
  method CollectFolder(disk: Disk, folders: seq<FilePath>, i: nat, projectFilter: string, result: seq<ProjectInfo>)
    returns (r: Result<seq<ProjectInfo>>)
    requires i < |folders| && folders[i] in disk.directories
    requires var found := ProjectFiles(disk.listing, folders[..i], projectFilter);
      |result| == |found| && ReadsCleanly(disk.directories, disk.listing, disk.files, found)
      && forall k :: 0 <= k < |found| ==> BuiltFrom(disk.directories, disk.listing, disk.files, result[k], found[k])
    ensures r.Err? ==> !ReadsCleanly(disk.directories, disk.listing, disk.files, ProjectFiles(disk.listing, folders, projectFilter))
    ensures r.Ok? ==> var found := ProjectFiles(disk.listing, folders[..i + 1], projectFilter);
      ReadsCleanly(disk.directories, disk.listing, disk.files, found)
      && |r.value| == |found| && |result| <= |r.value|
      && (forall k :: 0 <= k < |result| ==> r.value[k] == result[k])
      && (forall k :: 0 <= k < |found| ==> BuiltFrom(disk.directories, disk.listing, disk.files, r.value[k], found[k]))
    ensures r.Ok? ==> forall k :: |result| <= k < |r.value| ==> fresh(r.value[k])
  {
    ghost var before := ProjectFiles(disk.listing, folders[..i], projectFilter);
    assert folders[..i + 1][..i] == folders[..i];
    var files := disk.TopFiles(folders[i], projectFilter).value;
    if |files| > 0 {
      var built := BuildProjectInfo(disk, files);
      if built.Err? {
        ghost var f :| f in files && FreshRead(disk.directories, disk.listing, disk.files, f).error.Some?;
        ProjectFilesAre(disk.listing, folders, projectFilter);
        assert f in ProjectFiles(disk.listing, folders, projectFilter);
        return Err(built.error);
      }
      AppendBuilt(disk, result, before, built.value, files);
      return Ok(result + built.value);
    }
    assert before + files == before;
    return Ok(result);
  }

  /** Projects built from two runs of files, side by side, are built from the files side by side. */
  lemma AppendBuilt(disk: Disk, result: seq<ProjectInfo>, found: seq<FilePath>, built: seq<ProjectInfo>, files: seq<FilePath>)
    requires |result| == |found| && |built| == |files|
    requires forall k :: 0 <= k < |found| ==> BuiltFrom(disk.directories, disk.listing, disk.files, result[k], found[k])
    requires forall k :: 0 <= k < |files| ==> BuiltFrom(disk.directories, disk.listing, disk.files, built[k], files[k])
    ensures forall k :: 0 <= k < |found| + |files| ==> BuiltFrom(disk.directories, disk.listing, disk.files, (result + built)[k], (found + files)[k])
  {
    forall k | 0 <= k < |found| + |files|
      ensures BuiltFrom(disk.directories, disk.listing, disk.files, (result + built)[k], (found + files)[k])
    {
      if k >= |found| {
        assert (result + built)[k] == built[k - |found|] && (found + files)[k] == files[k - |found|];
      }
    }
  }
}
