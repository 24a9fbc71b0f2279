/** The engine's data objects: the per-item result record, the project and
    package descriptions the controllers build from files, and the helper
    operations that fill or rewrite their version fields in place.

    `ProjectInfo<ReferAssemblyInfo>` and its subclass `ReferAssemblyInfo` are one
    class here (the subclass only adds `RefVersion`), and likewise
    `NugetInfo<RefNugetInfo>` and `RefNugetInfo`. */
module Model {
  import opened Wrappers
  import opened Seqs
  import opened Text
  import opened Documents
  import opened VersionHelper
  import opened VsProjectHelper

  // =====================================================================
  // ResultInfo<T>

  /** The outcome of one item of a batch: the item, an error message and the
      name of the item it was reached from. The source fills Error and
      SourceProjectName while it builds each result, before anything else holds
      it, so a result is a value here. */
  datatype ResultInfo<T> = ResultInfo(data: T, error: Option<string>, sourceProjectName: Option<string>)
  {
    /** HasError: the error message holds some character that is not white space. */
    predicate HasError()
      ensures HasError() <==> error.Some? && exists i :: 0 <= i < |error.value| && !IsWhiteSpace(error.value[i])
    {
      !IsNullOrWhiteSpace(error)
    }
  }

  // =====================================================================
  // ProjectInfo<ReferAssemblyInfo> / ReferAssemblyInfo

  /** A project (or a consumer of a referenced assembly) and its versions. */
  class ProjectInfo {
    var name: Option<string>
    var path: Option<FilePath>
    var assemblyVersion: Option<string>
    var fileVersion: Option<string>
    var informationalVersion: Option<string>
    var items: seq<ProjectInfo>
    var refVersion: Option<string>

    /** The parameterless constructor: every field unset, no items. */
    constructor Empty()
      ensures name == None && path == None && items == [] && refVersion == None
      ensures Versions() == AssemblyVersions(None, None, None)
    {
      name := None;
      path := None;
      assemblyVersion := None;
      fileVersion := None;
      informationalVersion := None;
      items := [];
      refVersion := None;
    }

    /** ProjectInfo(FileInfo): a null file leaves everything unset; otherwise the name is the
        file name without its extension and the path the full path. */
    constructor (data: Option<FilePath>)
      ensures data.None? ==> name == None && path == None
      ensures data.Some? ==> name == Some(FileNameWithoutExtension(data.value)) && path == data
      ensures items == [] && refVersion == None && Versions() == AssemblyVersions(None, None, None)
    {
      if data.None? {
        name := None;
        path := None;
      } else {
        name := Some(FileNameWithoutExtension(data.value));
        path := data;
      }
      assemblyVersion := None;
      fileVersion := None;
      informationalVersion := None;
      items := [];
      refVersion := None;
    }

    /** The three version fields. */
    function Versions(): AssemblyVersions
      reads this
    {
      AssemblyVersions(informationalVersion, assemblyVersion, fileVersion)
    }

    /** GetAssemblyInfo: fills the version fields from Properties\AssemblyInfo.cs; the error is
        the exception that escapes (the fields then keep what the lines before it set). */
    method GetAssemblyInfo(disk: Disk) returns (failure: Option<Exception>)
      modifies this
      ensures name == old(name) && path == old(path) && items == old(items) && refVersion == old(refVersion)
      ensures Partial(Versions(), failure) == AssemblyInfoRead(disk.directories, disk.listing, disk.files, path, old(Versions()))
    {
      ghost var init := Versions();
      var dirName := PropertiesDir(path);
      if !disk.DirectoryExists(dirName) {
        return None;
      }
      var found := disk.TopFiles(dirName, AssemblyFileName);
      var files := found.value;
      if |files| == 0 {
        return None;
      }
      var read := disk.ReadLines(files[0]);
      if read.Err? {
        return Some(read.error);
      }
      var lines := read.value;
      var i := 0;
      while i < |lines|
        invariant 0 <= i <= |lines|
        invariant ScanLines(lines[..i], init) == Partial(Versions(), None)
        invariant name == old(name) && path == old(path) && items == old(items) && refVersion == old(refVersion)
      {
        var line := lines[i];
        assert lines[..i + 1][..i] == lines[..i];
        if !StartsWith(line, "//") {
          if Contains(line, AssemblyInformationalVersionConst) {
            var v := ReadAsemblyVersion(line);
            if v.Err? {
              ScanLinesStops(lines, i + 1, init);
              return Some(v.error);
            }
            informationalVersion := Some(v.value);
          } else if Contains(line, AssemblyVersionConst) {
            var v := ReadAsemblyVersion(line);
            if v.Err? {
              ScanLinesStops(lines, i + 1, init);
              return Some(v.error);
            }
            assemblyVersion := Some(v.value);
          } else if Contains(line, AssemblyFileVersionConst) {
            var v := ReadAsemblyVersion(line);
            if v.Err? {
              ScanLinesStops(lines, i + 1, init);
              return Some(v.error);
            }
            fileVersion := Some(v.value);
          }
        }
        i := i + 1;
      }
      assert lines[..i] == lines;
      return None;
    }
  }

  /** GetAssemblyInfo's outcome: nothing changes when Properties or its AssemblyInfo.cs is
      missing; otherwise the line scan from the current fields. */
  function AssemblyInfoRead(directories: seq<FilePath>, listing: seq<FilePath>, files: Files,
                            path: Option<FilePath>, init: AssemblyVersions): Partial<AssemblyVersions>
  {
    var dirName := PropertiesDir(path);
    if dirName !in directories then Partial(init, None)
    else
      var found := FilesIn(listing, dirName, AssemblyFileName);
      if |found| == 0 then Partial(init, None)
      else match ReadAllLines(files, found[0])
        case Err(e) => Partial(init, Some(e))
        case Ok(lines) => ScanLines(lines, init)
  }

  /** When Properties holds an AssemblyInfo.cs of lines, GetAssemblyInfo scans exactly those
      lines from the current fields (so ScanLinesLastWins tells what each field becomes). */
  lemma AssemblyInfoScansFile(directories: seq<FilePath>, listing: seq<FilePath>, files: Files,
                              path: Option<FilePath>, init: AssemblyVersions, lines: seq<string>)
    requires PropertiesDir(path) in directories
    requires Combine(PropertiesDir(path), AssemblyFileName) in listing
    requires ReadAllLines(files, Combine(PropertiesDir(path), AssemblyFileName)) == Ok(lines)
    ensures AssemblyInfoRead(directories, listing, files, path, init) == ScanLines(lines, init)
  {
    AssemblyFileNameIsLiteral();
    FilesInLiteral(listing, PropertiesDir(path), AssemblyFileName);
  }

  /** Without a Properties directory, or without an AssemblyInfo.cs in it, nothing is read. */
  lemma AssemblyInfoMissing(directories: seq<FilePath>, listing: seq<FilePath>, files: Files,
                            path: Option<FilePath>, init: AssemblyVersions)
    requires PropertiesDir(path) !in directories
      || forall p :: p in listing ==> p != Combine(PropertiesDir(path), AssemblyFileName)
    ensures AssemblyInfoRead(directories, listing, files, path, init) == Partial(init, None)
  {
    var dir := PropertiesDir(path);
    if dir in directories {
      NoAssemblyFile(listing, dir);
    }
  }

  /** A directory whose AssemblyInfo.cs is not listed yields no match for that name. */
  lemma NoAssemblyFile(listing: seq<FilePath>, dir: FilePath)
    requires forall p :: p in listing ==> p != Combine(dir, AssemblyFileName)
    ensures FilesIn(listing, dir, AssemblyFileName) == []
  {
    var found := FilesIn(listing, dir, AssemblyFileName);
    if |found| > 0 {
      assert found[0] in found;
      AssemblyFileNameIsLiteral();
      FilesInLiteralOnly(listing, dir, AssemblyFileName);
      assert false;
    }
  }

  // =====================================================================
  // NugetInfo<RefNugetInfo> / RefNugetInfo

  /** A package (a .nuspec) or a packages.config consuming one, and its version. */
  class NugetInfo {
    var name: Option<string>
    var path: Option<FilePath>
    var nugetVersion: Option<string>
    var items: seq<NugetInfo>
    var refVersion: Option<string>

    /** The parameterless constructor: every field unset, no items. */
    constructor Empty()
      ensures name == None && path == None && nugetVersion == None && items == [] && refVersion == None
    {
      name := None;
      path := None;
      nugetVersion := None;
      items := [];
      refVersion := None;
    }

    /** BuildNugetVersion: NugetVersion becomes the text of the last <version> whose first child
        is text; the error is the exception that escapes. */
    method BuildNugetVersion(disk: Disk) returns (failure: Option<Exception>)
      modifies this
      ensures name == old(name) && path == old(path) && items == old(items) && refVersion == old(refVersion)
      ensures Partial(nugetVersion, failure) == NugetVersionRead(disk.files, path, old(nugetVersion))
    {
      if path.None? {
        return Some(ArgumentNull);
      }
      var loaded := disk.LoadXml(path.value);
      if loaded.Err? {
        return Some(loaded.error);
      }
      var nodes := loaded.value.versions;
      var i := 0;
      while i < |nodes|
        invariant 0 <= i <= |nodes|
        invariant forall j :: 0 <= j < i ==> !nodes[j].NoChild?
        invariant nugetVersion == LastVersionText(nodes[..i], old(nugetVersion))
        invariant name == old(name) && path == old(path) && items == old(items) && refVersion == old(refVersion)
      {
        assert nodes[..i + 1][..i] == nodes[..i];
        if nodes[i].NoChild? {
          assert ReachedVersions(nodes) == nodes[..i];
          return Some(NullReference);
        }
        if nodes[i].TextChild? {
          nugetVersion := Some(nodes[i].text);
        }
        i := i + 1;
      }
      assert nodes[..i] == nodes;
      assert ReachedVersions(nodes) == nodes;
      return None;
    }

    /** IncreaseNugetVersion: every <version> with non-empty text takes the new version, and
        so does NugetVersion; the document is saved only when no exception stopped the scan. */
    method IncreaseNugetVersion(disk: Disk, newVersion: string) returns (failure: Option<Exception>)
      requires disk.Valid()
      modifies this, disk
      ensures disk.Valid()
      ensures name == old(name) && path == old(path) && items == old(items) && refVersion == old(refVersion)
      ensures Partial(nugetVersion, failure) == NugetVersionBump(old(disk.files), path, newVersion, old(nugetVersion))
      ensures disk.files == NugetBumpFiles(old(disk.files), path, newVersion)
    {
      if path.None? {
        return Some(ArgumentNull);
      }
      var loaded := disk.LoadXml(path.value);
      if loaded.Err? {
        return Some(loaded.error);
      }
      var xmlDoc := loaded.value;
      var nodes := xmlDoc.versions;
      ghost var hit := -1;
      var i := 0;
      while i < |nodes|
        invariant 0 <= i <= |nodes| && |xmlDoc.versions| == |nodes|
        invariant forall j :: 0 <= j < i ==> !nodes[j].NoChild?
        invariant xmlDoc == loaded.value.(versions := xmlDoc.versions)
        invariant forall j :: 0 <= j < |nodes| ==>
          xmlDoc.versions[j] == if j < i then BumpElement(nodes[j], newVersion) else nodes[j]
        invariant hit < 0 ==> forall j :: 0 <= j < i ==> !IsNonEmptyText(nodes[j])
        invariant hit >= 0 ==> hit < i && IsNonEmptyText(nodes[hit])
        invariant nugetVersion == if hit >= 0 then Some(newVersion) else old(nugetVersion)
        invariant name == old(name) && path == old(path) && items == old(items) && refVersion == old(refVersion)
        invariant disk.files == old(disk.files)
      {
        if nodes[i].NoChild? {
          assert ReachedVersions(nodes) == nodes[..i];
          return Some(NullReference);
        }
        if IsNonEmptyText(nodes[i]) {
          nugetVersion := Some(newVersion);
          xmlDoc := xmlDoc.(versions := xmlDoc.versions[i := TextChild(newVersion)]);
          hit := i;
        }
        i := i + 1;
      }
      assert ReachedVersions(nodes) == nodes;
      assert xmlDoc.versions == BumpedVersions(nodes, newVersion);
      disk.Save(path.value, xmlDoc);
      return None;
    }
  }

  /** BuildNugetVersion's outcome: loading a null path fails with ArgumentNull. */
  function NugetVersionRead(files: Files, path: Option<FilePath>, current: Option<string>): Partial<Option<string>>
  {
    if path.None? then Partial(current, Some(ArgumentNull))
    else match Load(files, path.value)
      case Err(e) => Partial(current, Some(e))
      case Ok(doc) => ReadNugetVersion(doc.versions, current)
  }

  /** IncreaseNugetVersion's NugetVersion, and the exception that escapes. */
  function NugetVersionBump(files: Files, path: Option<FilePath>, newVersion: string, current: Option<string>): Partial<Option<string>>
  {
    if path.None? then Partial(current, Some(ArgumentNull))
    else match Load(files, path.value)
      case Err(e) => Partial(current, Some(e))
      case Ok(doc) => BumpNugetVersion(doc.versions, newVersion, current)
  }

  /** The files after IncreaseNugetVersion: the bumped document, or unchanged when it failed. */
  function NugetBumpFiles(files: Files, path: Option<FilePath>, newVersion: string): Files
  {
    if path.None? then files
    else match Load(files, path.value)
      case Err(_) => files
      case Ok(doc) =>
        if BumpNugetVersion(doc.versions, newVersion, None).error.Some? then files
        else files[path.value := Xml(doc.(versions := BumpedVersions(doc.versions, newVersion)))]
  }

  /** A successful IncreaseNugetVersion followed by BuildNugetVersion on the saved file: the
      version read back is the new one, unless the last text child was empty (it is not
      rewritten) or there is no text child at all; and NugetVersion was set by the bump
      exactly when some text was non-empty. */
  lemma IncreaseThenBuild(files: Files, path: FilePath, newVersion: string, current: Option<string>)
    requires NugetVersionBump(files, Some(path), newVersion, current).error.None?
    requires newVersion != ""
    ensures path in files && files[path].Xml?
    ensures var versions := files[path].doc.versions;
      var k := LastIndex(versions, (v: VersionElement) => v.TextChild?);
      NugetVersionRead(NugetBumpFiles(files, Some(path), newVersion), Some(path), current)
        == Partial(if k < 0 then current else if versions[k].text == "" then Some("") else Some(newVersion), None)
      && ((exists j :: 0 <= j < |versions| && IsNonEmptyText(versions[j])) ==>
            NugetVersionBump(files, Some(path), newVersion, current).value == Some(newVersion))
  {
    var versions := files[path].doc.versions;
    BumpThenRead(versions, newVersion, current);
    assert BumpNugetVersion(versions, newVersion, None).error == BumpNugetVersion(versions, newVersion, current).error;
  }

  /** NugetInfo(FileInfo): a null file reads nothing and leaves everything unset; otherwise the
      name is the file name with its extension, the path the full path, and BuildNugetVersion
      runs (its exception escapes the constructor). */
  method NewNugetInfo(disk: Disk, data: Option<FilePath>) returns (r: Result<NugetInfo>)
    ensures r.Ok? ==> fresh(r.value) && r.value.items == [] && r.value.refVersion == None
    ensures data.None? ==> r.Ok? && r.value.name == None && r.value.path == None && r.value.nugetVersion == None
    ensures data.Some? ==>
      var read := NugetVersionRead(disk.files, data, None);
      (r.Err? <==> read.error.Some?) && (r.Err? ==> r.error == read.error.value)
      && (r.Ok? ==> r.value.name == Some(FileName(data.value)) && r.value.path == data && r.value.nugetVersion == read.value)
  {
    var info := new NugetInfo.Empty();
    if data.None? {
      return Ok(info);
    }
    info.name := Some(FileName(data.value));
    info.path := data;
    var failure := info.BuildNugetVersion(disk);
    if failure.Some? {
      return Err(failure.value);
    }
    return Ok(info);
  }

  /** RefNugetInfo(FileInfo): the base constructor, then the name becomes the name of the
      file's directory; a null file fails there, and so does a file with no directory. */
  method NewRefNugetInfo(disk: Disk, dataInfo: Option<FilePath>) returns (r: Result<NugetInfo>)
    ensures r.Ok? ==> fresh(r.value) && r.value.items == [] && r.value.refVersion == None
    ensures dataInfo.None? ==> r == Err(NullReference)
    ensures dataInfo.Some? ==>
      var read := NugetVersionRead(disk.files, dataInfo, None);
      (r.Ok? <==> read.error.None? && |dataInfo.value| >= 2)
      && (read.error.Some? ==> r == Err(read.error.value))
      && (read.error.None? && |dataInfo.value| < 2 ==> r == Err(ArgumentNull))
      && (r.Ok? ==>
            r.value.name == Some(dataInfo.value[|dataInfo.value| - 2]) && r.value.path == dataInfo
            && r.value.nugetVersion == read.value)
  {
    var b := NewNugetInfo(disk, dataInfo);
    if b.Err? {
      return b;
    }
    if dataInfo.None? {
      return Err(NullReference);
    }
    var dir := DirectoryName(dataInfo.value);
    if dir.None? {
      return Err(ArgumentNull);
    }
    b.value.name := Some(FileName(dir.value));
    return b;
  }
}
