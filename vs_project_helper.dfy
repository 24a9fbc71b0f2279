/** VSProjectHelper: reading and rewriting version strings in MSBuild
    manifests (<Reference Include="Name, Version=…"> and HintPath children),
    packages.config <package> entries, nuspec <version> and <dependency>
    elements, and AssemblyInfo.cs lines. */
module VsProjectHelper {
  import opened Wrappers
  import opened Seqs
  import opened Text
  import opened Documents
  import opened VersionHelper

  // =====================================================================
  // Manifest references: the Include attribute "Name, Version=…, …"

  /** A reference whose Include names the assembly: the first comma-segment equals the name
      ignoring case, and there is a second segment. */
  predicate RefersTo(r: Reference, assemblyName: string)
  {
    r.includeAttr.Some? &&
    var data := Split(r.includeAttr.value, ',');
    EqualsIgnoreCase(data[0], assemblyName) && |data| >= 2
  }

  /** `segment.Split('=')[1]`: fails when the segment has no '='. */
  function SegmentVersion(segment: string): (r: Result<string>)
    ensures r.Err? <==> '=' !in segment
    ensures r.Err? ==> r.error == IndexOutOfRange
    ensures r.Ok? ==> '=' !in r.value
  {
    SplitFirst(segment, '=');
    var kv := Split(segment, '=');
    if |kv| < 2 then Err(IndexOutOfRange) else Ok(kv[1])
  }

  /** The version read from a segment is the text after its first '=', up to the next '=' or the end. */
  lemma SegmentVersionBetweenEquals(segment: string)
    requires SegmentVersion(segment).Ok?
    ensures var i := IndexOf(segment, '=');
      var v := SegmentVersion(segment).value;
      var rest := segment[i + 1..];
      rest == v || (StartsWith(rest, v) && |rest| > |v| && rest[|v|] == '=')
  {
    var i := IndexOf(segment, '=');
    var rest := segment[i + 1..];
    SplitFirst(segment, '=');
    SplitFirst(rest, '=');
  }

  /** GetReferenceVersion on a loaded manifest: the version of the first reference to the
      assembly, skipping references without Include, or "" when there is none. */
  function ReferenceVersion(refs: seq<Reference>, assemblyName: string): Result<string>
  {
    var k := FirstIndex(refs, (x: Reference) => RefersTo(x, assemblyName));
    if k < 0 then Ok("") else SegmentVersion(Split(refs[k].includeAttr.value, ',')[1])
  }

  /** GetReferenceVersion(projectFile, assemblyName) */
  function GetReferenceVersion(files: Files, projectFile: FilePath, assemblyName: string): Result<string>
  {
    var doc :- Load(files, projectFile);
    ReferenceVersion(doc.references, assemblyName)
  }

  /** GetReferenceVersion passes over a reference without Include. */
  lemma ReferenceVersionSkipsMissingInclude(r: Reference, refs: seq<Reference>, assemblyName: string)
    requires r.includeAttr.None?
    ensures ReferenceVersion([r] + refs, assemblyName) == ReferenceVersion(refs, assemblyName)
  {
    var p := (x: Reference) => RefersTo(x, assemblyName);
    var k := FirstIndex(refs, p);
    var s := [r] + refs;
    assert forall j :: 1 <= j < |s| ==> s[j] == refs[j - 1];
    assert FirstIndex(s, p) == if k < 0 then -1 else k + 1;
  }

  /** Where ChangeReferenceVersion's scan stops: a reference without Include (it fails there)
      or a reference to the assembly. */
  predicate StopsChange(r: Reference, assemblyName: string)
  {
    r.includeAttr.None? || RefersTo(r, assemblyName)
  }

  /** The three ways a change can end without an exception. */
  datatype ReferenceChange = NoMatch | SameVersion | Changed(references: seq<Reference>)

  /** ChangeReferenceVersion on a loaded manifest: the first reference to the assembly gets
      its second Include segment rewritten, with the old version replaced by the new one. */
  function ChangeReferences(refs: seq<Reference>, assemblyName: string, version: string): Result<ReferenceChange>
  {
    var k := FirstIndex(refs, (x: Reference) => StopsChange(x, assemblyName));
    if k < 0 then Ok(NoMatch)
    else if refs[k].includeAttr.None? then Err(NullReference)
    else
      var data := Split(refs[k].includeAttr.value, ',');
      var oldVersion :- SegmentVersion(data[1]);
      if oldVersion == version then Ok(SameVersion)
      else
        var newSegment :- Replace(data[1], oldVersion, version);
        Ok(Changed(refs[k := Reference(Some(Join(',', data[1 := newSegment])), refs[k].children)]))
  }

  /** ChangeReferenceVersion(projectFile, assemblyName, version) and the files it leaves. */
  function ChangeReferenceFile(files: Files, projectFile: FilePath, assemblyName: string, version: string): Effect<bool>
  {
    match Load(files, projectFile)
    case Err(e) => Effect(Err(e), files)
    case Ok(doc) =>
      match ChangeReferences(doc.references, assemblyName, version)
      case Err(e) => Effect(Err(e), files)
      case Ok(NoMatch) => Effect(Ok(true), files)
      case Ok(SameVersion) => Effect(Ok(false), files)
      case Ok(Changed(refs)) => Effect(Ok(true), files[projectFile := Xml(doc.(references := refs))])
  }

  /** Where the change stops on an existing Include, it stops at the first reference to the
      assembly, the one GetReferenceVersion reads. */
  lemma ChangeStopIsFirstReference(refs: seq<Reference>, assemblyName: string)
    ensures var k := FirstIndex(refs, (x: Reference) => StopsChange(x, assemblyName));
      var m := FirstIndex(refs, (x: Reference) => RefersTo(x, assemblyName));
      (k < 0 ==> m < 0) && (k >= 0 && refs[k].includeAttr.Some? ==> m == k) && (m >= 0 ==> 0 <= k <= m)
  {
  }

  /** The change fails with NullReference exactly when a reference without Include comes
      before every reference to the assembly. */
  lemma ChangeFailsOnMissingInclude(refs: seq<Reference>, assemblyName: string, version: string)
    ensures ChangeReferences(refs, assemblyName, version) == Err(NullReference) <==>
      exists j :: 0 <= j < |refs| && refs[j].includeAttr.None?
        && forall i :: 0 <= i < j ==> !RefersTo(refs[i], assemblyName)
  {
    var k := FirstIndex(refs, (x: Reference) => StopsChange(x, assemblyName));
    if k >= 0 && refs[k].includeAttr.Some? {
      var data := Split(refs[k].includeAttr.value, ',');
      var seg := SegmentVersion(data[1]);
      if seg.Ok? && seg.value != version {
        assert Replace(data[1], seg.value, version).Err? ==> Replace(data[1], seg.value, version).error == EmptyOldValue;
      }
      assert ChangeReferences(refs, assemblyName, version) != Err(NullReference);
    } else if k >= 0 {
      assert forall i :: 0 <= i < k ==> !RefersTo(refs[i], assemblyName);
    }
  }

  /** The change reports false exactly when the first reference to the assembly comes after no
      Include-less reference and already carries the requested version. */
  lemma ChangeFalseIffSameVersion(refs: seq<Reference>, assemblyName: string, version: string)
    ensures ChangeReferences(refs, assemblyName, version) == Ok(SameVersion) <==>
      FirstIndex(refs, (x: Reference) => StopsChange(x, assemblyName))
        == FirstIndex(refs, (x: Reference) => RefersTo(x, assemblyName)) >= 0
      && ReferenceVersion(refs, assemblyName) == Ok(version)
  {
    ChangeStopIsFirstReference(refs, assemblyName);
  }

  /** No change at all exactly when every reference has Include and none names the assembly. */
  lemma ChangeNoMatchIff(refs: seq<Reference>, assemblyName: string, version: string)
    ensures ChangeReferences(refs, assemblyName, version) == Ok(NoMatch) <==>
      forall j :: 0 <= j < |refs| ==> refs[j].includeAttr.Some? && !RefersTo(refs[j], assemblyName)
  {
    var k := FirstIndex(refs, (x: Reference) => StopsChange(x, assemblyName));
    if k >= 0 && refs[k].includeAttr.Some? {
      var data := Split(refs[k].includeAttr.value, ',');
      SplitFirst(data[1], '=');
    }
  }

  /** Replacing a segment's version by one without '=' makes the segment read back the new version. */
  lemma SegmentVersionAfterReplace(segment: string, version: string)
    requires SegmentVersion(segment).Ok? && SegmentVersion(segment).value != ""
    requires '=' !in version
    ensures SegmentVersion(ReplaceAll(segment, SegmentVersion(segment).value, version)) == Ok(version)
  {
    var kv := Split(segment, '=');
    var oldVersion := kv[1];
    JoinSplit(segment, '=');
    ReplaceJoin('=', kv, oldVersion, version);
    var pieces := ReplaceEach(kv, oldVersion, version);
    ReplaceWhole(oldVersion, version);
    forall j | 0 <= j < |pieces|
      ensures '=' !in pieces[j]
    {
      ReplaceExcludes(kv[j], oldVersion, version, '=');
    }
    SplitJoin(pieces, '=');
  }

  /** A rewrite is the first reference to the assembly with its Include rebuilt. */
  lemma ChangedShape(refs: seq<Reference>, assemblyName: string, version: string)
    requires ChangeReferences(refs, assemblyName, version).Ok?
    requires ChangeReferences(refs, assemblyName, version).value.Changed?
    ensures var k := FirstIndex(refs, (x: Reference) => RefersTo(x, assemblyName));
      0 <= k < |refs| && refs[k].includeAttr.Some?
      && var data := Split(refs[k].includeAttr.value, ',');
      |data| >= 2 && SegmentVersion(data[1]).Ok?
      && SegmentVersion(data[1]).value != version && SegmentVersion(data[1]).value != ""
      && ChangeReferences(refs, assemblyName, version).value.references
         == refs[k := Reference(Some(Join(',', data[1 := ReplaceAll(data[1], SegmentVersion(data[1]).value, version)])),
                                refs[k].children)]
  {
    ChangeStopIsFirstReference(refs, assemblyName);
  }

  /** A rewrite touches only the first reference to the assembly, and only its second Include
      segment, in which the old version is replaced by the new one. */
  lemma ChangeRewritesFirstReference(refs: seq<Reference>, assemblyName: string, version: string)
    requires ChangeReferences(refs, assemblyName, version).Ok?
    requires ChangeReferences(refs, assemblyName, version).value.Changed?
    ensures var k := FirstIndex(refs, (x: Reference) => RefersTo(x, assemblyName));
      var changed := ChangeReferences(refs, assemblyName, version).value.references;
      0 <= k < |refs| && |changed| == |refs| && refs[k].includeAttr.Some?
      && (forall j :: 0 <= j < |refs| && j != k ==> changed[j] == refs[j])
      && changed[k].children == refs[k].children
      && changed[k].includeAttr.Some?
      && var data := Split(refs[k].includeAttr.value, ',');
      |data| >= 2 && SegmentVersion(data[1]).Ok? && SegmentVersion(data[1]).value != version
      && (',' !in version ==>
           Split(changed[k].includeAttr.value, ',')
             == data[1 := ReplaceAll(data[1], SegmentVersion(data[1]).value, version)])
  {
    ChangedShape(refs, assemblyName, version);
    var k := FirstIndex(refs, (x: Reference) => RefersTo(x, assemblyName));
    var data := Split(refs[k].includeAttr.value, ',');
    var oldVersion := SegmentVersion(data[1]).value;
    if ',' !in version {
      var newSegment := ReplaceAll(data[1], oldVersion, version);
      ReplaceExcludes(data[1], oldVersion, version, ',');
      SplitJoinUpdate(data, ',', 1, newSegment);
    }
  }

  /** After a rewrite with a new version free of ',' and '=', GetReferenceVersion reads it back. */
  lemma ChangeReadsBack(refs: seq<Reference>, assemblyName: string, version: string)
    requires ChangeReferences(refs, assemblyName, version).Ok?
    requires ChangeReferences(refs, assemblyName, version).value.Changed?
    requires ',' !in version && '=' !in version
    ensures ReferenceVersion(ChangeReferences(refs, assemblyName, version).value.references, assemblyName) == Ok(version)
  {
    ChangedShape(refs, assemblyName, version);
    var p := (x: Reference) => RefersTo(x, assemblyName);
    var k := FirstIndex(refs, p);
    var data := Split(refs[k].includeAttr.value, ',');
    var oldVersion := SegmentVersion(data[1]).value;
    var newSegment := ReplaceAll(data[1], oldVersion, version);
    var changed := ChangeReferences(refs, assemblyName, version).value.references;
    ReplaceExcludes(data[1], oldVersion, version, ',');
    SplitJoinUpdate(data, ',', 1, newSegment);
    var newData := data[1 := newSegment];
    assert Split(changed[k].includeAttr.value, ',') == newData;
    assert p(changed[k]);
    SegmentVersionAfterReplace(data[1], version);
    assert forall j :: 0 <= j < k ==> changed[j] == refs[j] && !p(changed[j]);
    assert FirstIndex(changed, p) == k;
  }

  /** ChangeReferenceVersion: scans the references in order; a reference without Include raises
      NullReference; at the first reference to the assembly it returns false if the version is
      already the requested one, else rewrites that Include and saves once. True otherwise. */
  method ChangeReferenceVersion(disk: Disk, projectFile: FilePath, assemblyName: string, version: string)
    returns (r: Result<bool>)
    requires disk.Valid()
    modifies disk
    ensures disk.Valid()
    ensures Effect(r, disk.files) == ChangeReferenceFile(old(disk.files), projectFile, assemblyName, version)
  {
    var loaded := disk.LoadXml(projectFile);
    if loaded.Err? {
      return Err(loaded.error);
    }
    var xmlDoc := loaded.value;
    var nodes := xmlDoc.references;
    ghost var stop := (x: Reference) => StopsChange(x, assemblyName);
    var i := 0;
    while i < |nodes|
      invariant 0 <= i <= |nodes|
      invariant forall j :: 0 <= j < i ==> !stop(nodes[j])
    {
      var includeAtt := nodes[i].includeAttr;
      if includeAtt.None? {
        assert FirstIndex(nodes, stop) == i;
        return Err(NullReference);
      }
      var data := Split(includeAtt.value, ',');
      var assName := data[0];
      if EqualsIgnoreCase(assName, assemblyName) && |data| >= 2 {
        assert FirstIndex(nodes, stop) == i;
        var kv := Split(data[1], '=');
        if |kv| < 2 {
          return Err(IndexOutOfRange);
        }
        var oldVersion := kv[1];
        if oldVersion == version {
          return Ok(false);
        }
        if |oldVersion| == 0 {
          return Err(EmptyOldValue);
        }
        var newVersion := ReplaceAll(data[1], oldVersion, version);
        data := data[1 := newVersion];
        var newIncludeData := Join(',', data);
        xmlDoc := xmlDoc.(references := nodes[i := Reference(Some(newIncludeData), nodes[i].children)]);
        disk.Save(projectFile, xmlDoc);
        return Ok(true);
      }
      i := i + 1;
    }
    assert FirstIndex(nodes, stop) < 0;
    return Ok(true);
  }

  // =====================================================================
  // packages.config <package> and nuspec <dependency> entries

  /** An entry whose id equals the name ordinally (`id == name` on two strings that may be
      null): a missing id matches only a null name. */
  predicate HasId(e: Entry, name: Option<string>)
  {
    e.id == name
  }

  /** An entry with the id, lacking the version attribute: setting it raises NullReference. */
  predicate MissingVersion(e: Entry, name: Option<string>)
  {
    HasId(e, name) && e.version.None?
  }

  /** The entry with its version set when its id matches. */
  function Retarget(e: Entry, name: Option<string>, version: string): Entry
  {
    if HasId(e, name) then e.(version := Some(version)) else e
  }

  /** MissingVersion, HasId and Retarget as functions of the entry. */
  function Missing(name: Option<string>): Entry -> bool
  {
    e => MissingVersion(e, name)
  }

  function Having(name: Option<string>): Entry -> bool
  {
    e => HasId(e, name)
  }

  function Retargeting(name: Option<string>, version: string): Entry -> Entry
  {
    e => Retarget(e, name, version)
  }

  /** Setting the version of every entry with the id, in document order: the first one lacking
      a version attribute stops the scan, the earlier ones already set. */
  function SetVersions(entries: seq<Entry>, name: Option<string>, version: string): Partial<seq<Entry>>
  {
    var f := FirstIndex(entries, Missing(name));
    var retarget := Retargeting(name, version);
    if f < 0 then Partial(MapPrefix(entries, |entries|, retarget), None)
    else Partial(MapPrefix(entries, f, retarget), Some(NullReference))
  }

  /** Exactly the entries with the id get the new version; every id stays as it was. */
  lemma SetVersionsTargets(entries: seq<Entry>, name: Option<string>, version: string)
    requires SetVersions(entries, name, version).error.None?
    ensures var updated := SetVersions(entries, name, version).value;
      |updated| == |entries|
      && (forall j :: 0 <= j < |entries| ==> updated[j].id == entries[j].id)
      && (forall j :: 0 <= j < |entries| && HasId(entries[j], name) ==> updated[j].version == Some(version))
      && (forall j :: 0 <= j < |entries| && !HasId(entries[j], name) ==> updated[j] == entries[j])
  {
  }

  /** Setting the versions again changes nothing more: a second pass succeeds on the result
      and leaves it as it is. */
  lemma SetVersionsIdempotent(entries: seq<Entry>, name: Option<string>, version: string)
    requires SetVersions(entries, name, version).error.None?
    ensures var updated := SetVersions(entries, name, version).value;
      SetVersions(updated, name, version) == Partial(updated, None)
  {
    var updated := SetVersions(entries, name, version).value;
    var again := SetVersions(updated, name, version).value;
    assert FirstIndex(updated, Missing(name)) < 0;
    assert again == updated;
  }

  /** ChangeDependentNugetVersion(refNugetName, nuspecPath, version) and the files it leaves. */
  function ChangeDependentFile(files: Files, nuspecPath: FilePath, refNugetName: Option<string>, newVersion: string): Effect<()>
  {
    match Load(files, nuspecPath)
    case Err(e) => Effect(Err(e), files)
    case Ok(doc) =>
      var u := SetVersions(doc.dependencies, refNugetName, newVersion);
      Effect(if u.error.Some? then Err(u.error.value) else Ok(()),
             files[nuspecPath := Xml(doc.(dependencies := u.value))])
  }

  /** ChangeDependentNugetVersion: every <dependency> with the id gets the new version, saving after each. */
  method ChangeDependentNugetVersion(disk: Disk, refNugetName: Option<string>, nuspecPath: FilePath, newVersion: string)
    returns (r: Result<()>)
    requires disk.Valid()
    modifies disk
    ensures disk.Valid()
    ensures Effect(r, disk.files) == ChangeDependentFile(old(disk.files), nuspecPath, refNugetName, newVersion)
  {
    var loaded := disk.LoadXml(nuspecPath);
    if loaded.Err? {
      return Err(loaded.error);
    }
    var xmlDoc := loaded.value;
    var nodes := xmlDoc.dependencies;
    ghost var before := disk.files;
    ghost var missing := Missing(refNugetName);
    ghost var retarget := Retargeting(refNugetName, newVersion);
    var i := 0;
    while i < |nodes|
      invariant 0 <= i <= |nodes|
      invariant forall j :: 0 <= j < i ==> !missing(nodes[j])
      invariant xmlDoc == loaded.value.(dependencies := MapPrefix(nodes, i, retarget))
      invariant disk.Valid() && disk.files == before[nuspecPath := Xml(xmlDoc)]
    {
      var node := xmlDoc.dependencies[i];
      assert node == nodes[i];
      if node.id == refNugetName && node.version.None? {
        assert FirstIndex(nodes, missing) == i;
        return Err(NullReference);
      }
      xmlDoc := SaveDependency(disk, nuspecPath, before, loaded.value, xmlDoc, i, refNugetName, newVersion);
      i := i + 1;
    }
    assert FirstIndex(nodes, missing) < 0;
    return Ok(());
  }

  /** One turn of ChangeDependentNugetVersion's loop past a dependency that does not stop it:
      a dependency with the id gets the new version and the document is saved. */
  method SaveDependency(disk: Disk, path: FilePath, ghost before: Files, ghost loaded: XmlDoc, xmlDoc: XmlDoc, i: nat,
                        refNugetName: Option<string>, newVersion: string)
    returns (saved: XmlDoc)
    requires disk.Valid() && path in before && i < |loaded.dependencies|
    requires !MissingVersion(loaded.dependencies[i], refNugetName)
    requires xmlDoc == loaded.(dependencies := MapPrefix(loaded.dependencies, i, Retargeting(refNugetName, newVersion)))
    requires disk.files == before[path := Xml(xmlDoc)]
    modifies disk
    ensures disk.Valid()
    ensures saved == loaded.(dependencies := MapPrefix(loaded.dependencies, i + 1, Retargeting(refNugetName, newVersion)))
    ensures disk.files == before[path := Xml(saved)]
  {
    MapPrefixStep(loaded.dependencies, i, Retargeting(refNugetName, newVersion));
    var node := xmlDoc.dependencies[i];
    if node.id == refNugetName {
      saved := xmlDoc.(dependencies := xmlDoc.dependencies[i := node.(version := Some(newVersion))]);
      disk.Save(path, saved);
      UpdateTwice(before, path, Xml(xmlDoc), Xml(saved));
    } else {
      saved := xmlDoc;
    }
  }

  /** The packages.config half of ChangeRefNugetVersion: true iff some <package> has the id. */
  function ChangePackagesFile(files: Files, path: FilePath, refNugetName: Option<string>, newVersion: string): Effect<bool>
  {
    match Load(files, path)
    case Err(e) => Effect(Err(e), files)
    case Ok(doc) =>
      var u := SetVersions(doc.packages, refNugetName, newVersion);
      var found := FirstIndex(doc.packages, Having(refNugetName)) >= 0;
      Effect(if u.error.Some? then Err(u.error.value) else Ok(found),
             files[path := Xml(doc.(packages := u.value))])
  }

  /** ChangeRefNugetVersion(path, refNugetName, newVersion): the packages.config pass, then, only
      when some package matched, the first *.csproj beside it gets its HintPaths rewritten. */
  function ChangeRefNugetFile(disk: Disk, files: Files, path: FilePath, refNugetName: Option<string>, newVersion: string): Effect<bool>
  {
    var pass := ChangePackagesFile(files, path, refNugetName, newVersion);
    if pass.result != Ok(true) then pass
    else match DirectoryName(path)
      case None => pass
      case Some(dir) =>
        match disk.TopFiles(dir, "*.csproj")
        case Err(e) => Effect(Err(e), pass.files)
        case Ok(projects) =>
          if |projects| == 0 then pass
          else
            var u := UpdateNugetRefFile(pass.files, projects[0], refNugetName, newVersion);
            Effect(if u.result.Err? then Err(u.result.error) else Ok(true), u.files)
  }

  /** ChangeRefNugetVersion returns true exactly when a package has the id, whatever its old
      version, so repeating it is still true; GetRefNugetVersion then reads the new version. */
  lemma ChangePackagesResult(files: Files, path: FilePath, refNugetName: Option<string>, newVersion: string)
    requires ChangePackagesFile(files, path, refNugetName, newVersion).result.Ok?
    ensures var doc := Load(files, path).value;
      var e := ChangePackagesFile(files, path, refNugetName, newVersion);
      (e.result.value <==> exists j :: 0 <= j < |doc.packages| && HasId(doc.packages[j], refNugetName))
      && ChangePackagesFile(e.files, path, refNugetName, newVersion) == e
      && (e.result.value && refNugetName.Some? ==> GetRefNugetVersion(e.files, path, refNugetName.value) == Ok(Some(newVersion)))
  {
    var doc := Load(files, path).value;
    var e := ChangePackagesFile(files, path, refNugetName, newVersion);
    SetVersionsTargets(doc.packages, refNugetName, newVersion);
    SetVersionsIdempotent(doc.packages, refNugetName, newVersion);
    var updated := SetVersions(doc.packages, refNugetName, newVersion).value;
    var has := Having(refNugetName);
    assert forall j :: 0 <= j < |updated| ==> (has(updated[j]) <==> has(doc.packages[j]));
    assert FirstIndex(updated, has) == FirstIndex(doc.packages, has);
    assert e.files[path] == Xml(doc.(packages := updated));
    assert Load(e.files, path) == Ok(doc.(packages := updated));
  }

  /** The packages.config pass over a loaded document that no missing version stops:
      every package with the id retargeted, and whether one has it. */
  lemma PackagesPassOk(files: Files, path: FilePath, name: Option<string>, version: string, doc: XmlDoc, found: bool)
    requires Load(files, path) == Ok(doc) && FirstIndex(doc.packages, Missing(name)) < 0
    requires found == (FirstIndex(doc.packages, Having(name)) >= 0)
    ensures ChangePackagesFile(files, path, name, version)
      == Effect(Ok(found), files[path := Xml(doc.(packages := MapPrefix(doc.packages, |doc.packages|, Retargeting(name, version))))])
  {
  }

  /** The packages.config pass stopped by the first package with the id and no version: the
      packages before it retargeted. */
  lemma PackagesPassStops(files: Files, path: FilePath, name: Option<string>, version: string, doc: XmlDoc, i: nat)
    requires Load(files, path) == Ok(doc) && FirstIndex(doc.packages, Missing(name)) == i
    ensures ChangePackagesFile(files, path, name, version)
      == Effect(Err(NullReference), files[path := Xml(doc.(packages := MapPrefix(doc.packages, i, Retargeting(name, version))))])
  {
  }

  /** The first loop of ChangeRefNugetVersion: every <package> with the id gets the new version,
      saving after each; the result says whether one matched. */
  method ChangePackages(disk: Disk, path: FilePath, refNugetName: Option<string>, newVersion: string)
    returns (r: Result<bool>)
    requires disk.Valid()
    modifies disk
    ensures disk.Valid()
    ensures Effect(r, disk.files) == ChangePackagesFile(old(disk.files), path, refNugetName, newVersion)
  {
    var loaded := disk.LoadXml(path);
    if loaded.Err? {
      return Err(loaded.error);
    }
    var xmlDoc := loaded.value;
    var nodes := xmlDoc.packages;
    ghost var before := disk.files;
    ghost var missing := Missing(refNugetName);
    ghost var has := Having(refNugetName);
    ghost var retarget := Retargeting(refNugetName, newVersion);
    var result := false;
    ghost var hit := -1;
    var i := 0;
    while i < |nodes|
      invariant 0 <= i <= |nodes|
      invariant forall j :: 0 <= j < i ==> !missing(nodes[j])
      invariant result ==> 0 <= hit < |nodes| && has(nodes[hit])
      invariant !result ==> forall j :: 0 <= j < i ==> !has(nodes[j])
      invariant xmlDoc == loaded.value.(packages := MapPrefix(nodes, i, retarget))
      invariant disk.Valid() && disk.files == before[path := Xml(xmlDoc)]
    {
      var node := xmlDoc.packages[i];
      assert node == nodes[i];
      if node.id == refNugetName && node.version.None? {
        assert FirstIndex(nodes, missing) == i;
        PackagesPassStops(before, path, refNugetName, newVersion, loaded.value, i);
        return Err(NullReference);
      }
      xmlDoc := SavePackage(disk, path, before, loaded.value, xmlDoc, i, refNugetName, newVersion);
      if node.id == refNugetName {
        result := true;
        hit := i;
      }
      i := i + 1;
    }
    assert FirstIndex(nodes, missing) < 0;
    assert result == (FirstIndex(nodes, has) >= 0);
    PackagesPassOk(before, path, refNugetName, newVersion, loaded.value, result);
    return Ok(result);
  }

  /** One turn of ChangePackages' loop past a package that does not stop it: a package with
      the id gets the new version and the document is saved. */
  method SavePackage(disk: Disk, path: FilePath, ghost before: Files, ghost loaded: XmlDoc, xmlDoc: XmlDoc, i: nat,
                     refNugetName: Option<string>, newVersion: string)
    returns (saved: XmlDoc)
    requires disk.Valid() && path in before && i < |loaded.packages|
    requires !MissingVersion(loaded.packages[i], refNugetName)
    requires xmlDoc == loaded.(packages := MapPrefix(loaded.packages, i, Retargeting(refNugetName, newVersion)))
    requires disk.files == before[path := Xml(xmlDoc)]
    modifies disk
    ensures disk.Valid()
    ensures saved == loaded.(packages := MapPrefix(loaded.packages, i + 1, Retargeting(refNugetName, newVersion)))
    ensures disk.files == before[path := Xml(saved)]
  {
    MapPrefixStep(loaded.packages, i, Retargeting(refNugetName, newVersion));
    var node := xmlDoc.packages[i];
    if node.id == refNugetName {
      saved := xmlDoc.(packages := xmlDoc.packages[i := node.(version := Some(newVersion))]);
      disk.Save(path, saved);
      UpdateTwice(before, path, Xml(xmlDoc), Xml(saved));
    } else {
      saved := xmlDoc;
    }
  }

  /** ChangeRefNugetVersion: the packages.config pass; if a package matched, the first *.csproj
      beside the file gets its HintPaths rewritten. */
  method ChangeRefNugetVersion(disk: Disk, path: FilePath, refNugetName: Option<string>, newVersion: string)
    returns (r: Result<bool>)
    requires disk.Valid()
    modifies disk
    ensures disk.Valid()
    ensures Effect(r, disk.files) == ChangeRefNugetFile(disk, old(disk.files), path, refNugetName, newVersion)
  {
    var result := ChangePackages(disk, path, refNugetName, newVersion);
    if result != Ok(true) {
      return result;
    }
    var dirPath := DirectoryName(path);
    if dirPath.Some? {
      var csPrjFilePath := disk.TopFiles(dirPath.value, "*.csproj");
      if csPrjFilePath.Err? {
        return Err(csPrjFilePath.error);
      }
      if |csPrjFilePath.value| > 0 {
        var updated := UpdateNugetRefVersion(disk, csPrjFilePath.value[0], refNugetName, newVersion);
        if updated.Err? {
          return Err(updated.error);
        }
      }
    }
    return result;
  }

  // =====================================================================
  // HintPath rewriting: ...\packages\Common.Logging.3.3.1\lib\...

  /** What one HintPath text becomes. */
  datatype HintRewrite = Skip | OutOfRange | Rewrite(text: string)

  /** The segment after the first literal "packages" segment keeps its text before its first
      digit and takes the new version; no "packages", or no digit after it, means no rewrite,
      and "packages" as the last segment indexes past the end. */
  function RewriteHintPath(text: string, newVersion: string): HintRewrite
  {
    var splitedValue := Split(text, '\\');
    var indexOfPackages := FirstIndex(splitedValue, (s: string) => s == "packages");
    if indexOfPackages < 0 then Skip
    else if indexOfPackages + 1 >= |splitedValue| then OutOfRange
    else
      var oldVersionStr := splitedValue[indexOfPackages + 1];
      var indexOfFirstNumber := IndexOfDigit(oldVersionStr);
      if indexOfFirstNumber < 0 then Skip
      else Rewrite(Join('\\', splitedValue[indexOfPackages + 1 := oldVersionStr[..indexOfFirstNumber] + newVersion]))
  }

  /** A rewritten HintPath differs from the old one only in the segment after "packages",
      which becomes its text before its first digit followed by the new version. */
  lemma RewriteHintPathSegments(text: string, newVersion: string)
    requires RewriteHintPath(text, newVersion).Rewrite?
    requires '\\' !in newVersion
    ensures var segs := Split(text, '\\');
      var k := FirstIndex(segs, (s: string) => s == "packages") + 1;
      var newSegs := Split(RewriteHintPath(text, newVersion).text, '\\');
      1 <= k < |segs| && |newSegs| == |segs|
      && (forall j :: 0 <= j < |segs| && j != k ==> newSegs[j] == segs[j])
      && IndexOfDigit(segs[k]) >= 0
      && newSegs[k] == segs[k][..IndexOfDigit(segs[k])] + newVersion
  {
    var segs := Split(text, '\\');
    var k := FirstIndex(segs, (s: string) => s == "packages") + 1;
    var piece := segs[k][..IndexOfDigit(segs[k])] + newVersion;
    assert '\\' !in segs[k][..IndexOfDigit(segs[k])];
    SplitJoinUpdate(segs, '\\', k, piece);
  }

  /** A child the HintPath loop acts on: a HintPath whose text is rewritten or indexes past the end. */
  predicate Applies(c: ReferenceChild, newVersion: string)
  {
    c.name == "HintPath" && !RewriteHintPath(c.text, newVersion).Skip?
  }

  /** The children of a matching reference: the first child the loop acts on is rewritten (or
      fails), and the loop stops there. */
  function RewriteChildren(children: seq<ReferenceChild>, newVersion: string): (r: Result<seq<ReferenceChild>>)
    ensures r.Ok? ==> |r.value| == |children| && forall j :: 0 <= j < |children| ==> r.value[j].name == children[j].name
  {
    var k := FirstIndex(children, (c: ReferenceChild) => Applies(c, newVersion));
    if k < 0 then Ok(children)
    else if RewriteHintPath(children[k].text, newVersion).OutOfRange? then Err(IndexOutOfRange)
    else Ok(children[k := children[k].(text := RewriteHintPath(children[k].text, newVersion).text)])
  }

  /** One reference of UpdateNugetRefVersion: a missing Include raises NullReference; a reference
      whose first segment is not the package name ordinally is left alone. */
  function RewriteNugetReference(r: Reference, nugetName: Option<string>, newVersion: string): Result<Reference>
  {
    if r.includeAttr.None? then Err(NullReference)
    else if Some(Split(r.includeAttr.value, ',')[0]) != nugetName then Ok(r)
    else
      var children :- RewriteChildren(r.children, newVersion);
      Ok(r.(children := children))
  }

  function RewriteOrKeep(r: Reference, nugetName: Option<string>, newVersion: string): Reference
  {
    var x := RewriteNugetReference(r, nugetName, newVersion);
    if x.Ok? then x.value else r
  }

  /** All references in order, each saved as it is rewritten: the first failing one stops the scan. */
  function RewriteNugetReferences(refs: seq<Reference>, nugetName: Option<string>, newVersion: string): Partial<seq<Reference>>
  {
    var f := FirstIndex(refs, (r: Reference) => RewriteNugetReference(r, nugetName, newVersion).Err?);
    var rewrite := (r: Reference) => RewriteOrKeep(r, nugetName, newVersion);
    if f < 0 then Partial(MapPrefix(refs, |refs|, rewrite), None)
    else Partial(MapPrefix(refs, f, rewrite), Some(RewriteNugetReference(refs[f], nugetName, newVersion).error))
  }

  /** UpdateNugetRefVersion(projectFilePath, nugetName, newVersion) and the files it leaves. */
  function UpdateNugetRefFile(files: Files, projectFilePath: FilePath, nugetName: Option<string>, newVersion: string): Effect<string>
  {
    match Load(files, projectFilePath)
    case Err(e) => Effect(Err(e), files)
    case Ok(doc) =>
      var u := RewriteNugetReferences(doc.references, nugetName, newVersion);
      Effect(if u.error.Some? then Err(u.error.value) else Ok(""),
             files[projectFilePath := Xml(doc.(references := u.value))])
  }

  /** A reference not named by the package, or whose children the loop does not act on, is kept. */
  lemma RewriteKeepsUnaffected(r: Reference, nugetName: Option<string>, newVersion: string)
    requires r.includeAttr.Some?
    requires Some(Split(r.includeAttr.value, ',')[0]) != nugetName
      || forall j :: 0 <= j < |r.children| ==> !Applies(r.children[j], newVersion)
    ensures RewriteNugetReference(r, nugetName, newVersion) == Ok(r)
  {
    if Some(Split(r.includeAttr.value, ',')[0]) == nugetName {
      assert FirstIndex(r.children, (c: ReferenceChild) => Applies(c, newVersion)) < 0;
    }
  }

  /** The inner loop of UpdateNugetRefVersion: the index of the first HintPath child with a
      "packages" segment that is rewritten or indexes past the end, or -1. */
  method FindHintPath(childNodes: seq<ReferenceChild>, newVersion: string) returns (c: int)
    ensures c == FirstIndex(childNodes, (x: ReferenceChild) => Applies(x, newVersion))
  {
    ghost var applies := (x: ReferenceChild) => Applies(x, newVersion);
    c := 0;
    while c < |childNodes|
      invariant 0 <= c <= |childNodes|
      invariant forall j :: 0 <= j < c ==> !applies(childNodes[j])
    {
      var childNode := childNodes[c];
      if childNode.name == "HintPath" {
        var hint := RewriteHintPath(childNode.text, newVersion);
        if !hint.Skip? {
          return;
        }
      }
      c := c + 1;
    }
    return -1;
  }

  /** One pass of UpdateNugetRefVersion's outer loop: the Include's first segment against the
      package name, then the inner search over the reference's children. */
  method RewriteReference(refElement: Reference, nugetName: Option<string>, newVersion: string) returns (r: Result<Reference>)
    ensures r == RewriteNugetReference(refElement, nugetName, newVersion)
  {
    var includeAtt := refElement.includeAttr;
    if includeAtt.None? {
      return Err(NullReference);
    }
    var data := Split(includeAtt.value, ',');
    var assemblyName := data[0];
    if Some(assemblyName) != nugetName {
      return Ok(refElement);
    }
    var childNodes := refElement.children;
    var c := FindHintPath(childNodes, newVersion);
    if c < 0 {
      return Ok(refElement);
    }
    var hint := RewriteHintPath(childNodes[c].text, newVersion);
    if hint.OutOfRange? {
      return Err(IndexOutOfRange);
    }
    return Ok(refElement.(children := childNodes[c := childNodes[c].(text := hint.text)]));
  }

  /** UpdateNugetRefVersion: for each reference (NullReference when Include is missing) named by
      the package, the first HintPath with a "packages" segment followed by a versioned segment is
      rewritten and saved; it returns "". */
  method UpdateNugetRefVersion(disk: Disk, projectFilePath: FilePath, nugetName: Option<string>, newVersion: string)
    returns (r: Result<string>)
    requires disk.Valid()
    modifies disk
    ensures disk.Valid()
    ensures Effect(r, disk.files) == UpdateNugetRefFile(old(disk.files), projectFilePath, nugetName, newVersion)
    ensures r.Ok? ==> r.value == ""
  {
    var oldVersion := "";
    var loaded := disk.LoadXml(projectFilePath);
    if loaded.Err? {
      return Err(loaded.error);
    }
    var failure := RewriteReferencesInPlace(disk, projectFilePath, loaded.value, nugetName, newVersion);
    if failure.Some? {
      return Err(failure.value);
    }
    return Ok(oldVersion);
  }

  /** The reference loop of UpdateNugetRefVersion over a loaded manifest, saving after each rewrite. */
  method RewriteReferencesInPlace(disk: Disk, projectFilePath: FilePath, doc: XmlDoc, nugetName: Option<string>, newVersion: string)
    returns (failure: Option<Exception>)
    requires disk.Valid() && projectFilePath in disk.files && disk.files[projectFilePath] == Xml(doc)
    modifies disk
    ensures disk.Valid()
    ensures var u := RewriteNugetReferences(doc.references, nugetName, newVersion);
      failure == u.error && disk.files == old(disk.files)[projectFilePath := Xml(doc.(references := u.value))]
  {
    var nodes := doc.references;
    var done := nodes;
    var i := 0;
    while i < |nodes|
      invariant 0 <= i <= |nodes|
      invariant PassedPrefix(nodes, i, nugetName, newVersion)
      invariant done == RewrittenPrefix(nodes, i, nugetName, newVersion)
      invariant disk.Valid() && disk.files == old(disk.files)[projectFilePath := Xml(doc.(references := done))]
    {
      var refElement := done[i];
      assert refElement == nodes[i];
      var step := RewriteReference(refElement, nugetName, newVersion);
      if step.Err? {
        RewriteStopsAt(nodes, nugetName, newVersion, i);
        return Some(step.error);
      }
      if step.value != refElement {
        done := done[i := step.value];
        disk.Save(projectFilePath, doc.(references := done));
      }
      i := i + 1;
    }
    RewriteAllOf(nodes, nugetName, newVersion);
    return None;
  }

  /** None of the first `n` references makes the scan fail. */
  predicate PassedPrefix(refs: seq<Reference>, n: nat, nugetName: Option<string>, newVersion: string)
    requires n <= |refs|
  {
    n == 0 || (PassedPrefix(refs, n - 1, nugetName, newVersion) && RewriteNugetReference(refs[n - 1], nugetName, newVersion).Ok?)
  }

  /** The references after the scan has passed the first `n` of them. */
  function RewrittenPrefix(refs: seq<Reference>, n: nat, nugetName: Option<string>, newVersion: string): (r: seq<Reference>)
    requires n <= |refs|
    ensures |r| == |refs|
    ensures forall j :: n <= j < |refs| ==> r[j] == refs[j]
  {
    if n == 0 then refs
    else RewrittenPrefix(refs, n - 1, nugetName, newVersion)[n - 1 := RewriteOrKeep(refs[n - 1], nugetName, newVersion)]
  }

  lemma {:induction false} PassedPrefixAll(refs: seq<Reference>, n: nat, nugetName: Option<string>, newVersion: string)
    requires n <= |refs| && PassedPrefix(refs, n, nugetName, newVersion)
    ensures forall j :: 0 <= j < n ==> RewriteNugetReference(refs[j], nugetName, newVersion).Ok?
  {
    if n > 0 {
      PassedPrefixAll(refs, n - 1, nugetName, newVersion);
    }
  }

  lemma {:induction false} RewrittenPrefixAt(refs: seq<Reference>, n: nat, nugetName: Option<string>, newVersion: string)
    requires n <= |refs|
    ensures forall j :: 0 <= j < |refs| ==>
      RewrittenPrefix(refs, n, nugetName, newVersion)[j] == if j < n then RewriteOrKeep(refs[j], nugetName, newVersion) else refs[j]
  {
    if n > 0 {
      RewrittenPrefixAt(refs, n - 1, nugetName, newVersion);
    }
  }

  /** The scan reaching a failing reference: the references before it are rewritten, it and the rest kept. */
  lemma RewriteStopsAt(refs: seq<Reference>, nugetName: Option<string>, newVersion: string, i: nat)
    requires i < |refs| && PassedPrefix(refs, i, nugetName, newVersion)
    requires RewriteNugetReference(refs[i], nugetName, newVersion).Err?
    ensures RewriteNugetReferences(refs, nugetName, newVersion)
      == Partial(RewrittenPrefix(refs, i, nugetName, newVersion), Some(RewriteNugetReference(refs[i], nugetName, newVersion).error))
  {
    PassedPrefixAll(refs, i, nugetName, newVersion);
    RewrittenPrefixAt(refs, i, nugetName, newVersion);
    var u := RewriteNugetReferences(refs, nugetName, newVersion);
    var done := RewrittenPrefix(refs, i, nugetName, newVersion);
    assert |u.value| == |done| && forall j :: 0 <= j < |done| ==> u.value[j] == done[j];
    assert u.value == done;
  }

  /** The scan passing every reference: each one is rewritten or kept. */
  lemma RewriteAllOf(refs: seq<Reference>, nugetName: Option<string>, newVersion: string)
    requires PassedPrefix(refs, |refs|, nugetName, newVersion)
    ensures RewriteNugetReferences(refs, nugetName, newVersion) == Partial(RewrittenPrefix(refs, |refs|, nugetName, newVersion), None)
  {
    PassedPrefixAll(refs, |refs|, nugetName, newVersion);
    RewrittenPrefixAt(refs, |refs|, nugetName, newVersion);
    var u := RewriteNugetReferences(refs, nugetName, newVersion);
    var done := RewrittenPrefix(refs, |refs|, nugetName, newVersion);
    assert |u.value| == |done| && forall j :: 0 <= j < |done| ==> u.value[j] == done[j];
    assert u.value == done;
  }

  /** GetRefNuget: the ids of all <package> elements; a package without id raises NullReference. */
  function PackageIds(packages: seq<Entry>): (r: Result<seq<string>>)
    ensures r.Err? <==> exists j :: 0 <= j < |packages| && packages[j].id.None?
    ensures r.Err? ==> r.error == NullReference
    ensures r.Ok? ==> |r.value| == |packages| && forall j :: 0 <= j < |packages| ==> packages[j].id == Some(r.value[j])
  {
    if |packages| == 0 then Ok([])
    else if packages[0].id.None? then Err(NullReference)
    else
      var rest :- PackageIds(packages[1..]);
      assert forall j :: 1 <= j < |packages| ==> packages[j] == packages[1..][j - 1];
      Ok([packages[0].id.value] + rest)
  }

  /** GetRefNuget(filePath) */
  function GetRefNuget(files: Files, filePath: FilePath): Result<seq<string>>
  {
    var doc :- Load(files, filePath);
    PackageIds(doc.packages)
  }

  /** GetRefNugetVersion on a loaded packages.config: the version attribute (possibly missing) of
      the first package with the id, or "" when none has it. */
  function PackageVersion(packages: seq<Entry>, assemblyName: string): Option<string>
  {
    var k := FirstIndex(packages, Having(Some(assemblyName)));
    if k < 0 then Some("") else packages[k].version
  }

  /** GetRefNugetVersion(fullName, assemblyName) */
  function GetRefNugetVersion(files: Files, fullName: FilePath, assemblyName: string): Result<Option<string>>
  {
    var doc :- Load(files, fullName);
    Ok(PackageVersion(doc.packages, assemblyName))
  }

  // =====================================================================
  // Equals

  /** Equals(sourceList, anotherList): equal counts, and every element of the first occurs in the second. */
  function ListEquals(sourceList: seq<string>, anotherList: seq<string>): bool
  {
    |sourceList| == |anotherList| && forall s :: s in sourceList ==> s in anotherList
  }

  /** The comparison is inclusion of elements plus equal counts, so it is not symmetric. */
  lemma ListEqualsNotSymmetric()
    ensures ListEquals(["a", "a"], ["a", "b"]) && !ListEquals(["a", "b"], ["a", "a"])
  {
    assert "b" in ["a", "b"] && "b" !in ["a", "a"];
  }

  /** Equality of two lists as multisets: the same elements, each as often. */
  predicate SameElements(sourceList: seq<string>, anotherList: seq<string>)
  {
    multiset(sourceList) == multiset(anotherList)
  }

  /** Multiset equality is symmetric and implies the as-written comparison. */
  lemma SameElementsSymmetric(a: seq<string>, b: seq<string>)
    ensures SameElements(a, b) <==> SameElements(b, a)
    ensures SameElements(a, b) ==> ListEquals(a, b) && ListEquals(b, a)
  {
    if SameElements(a, b) {
      assert |a| == |multiset(a)| == |multiset(b)| == |b|;
      forall s | s in a ensures s in b {
        assert s in multiset(a);
      }
      forall s | s in b ensures s in a {
        assert s in multiset(b);
      }
    }
  }

  // =====================================================================
  // nuspec <version> elements (BuildNugetVersion, IncreaseNugetVersion)

  /** The value of the text children of the <version> elements, the last one winning: a first child
      that is not text has a null Value and is passed over. Elements after the first one without
      children are not reached. */
  function LastVersionText(versions: seq<VersionElement>, current: Option<string>): Option<string>
  {
    if |versions| == 0 then current
    else match versions[|versions| - 1]
      case TextChild(text) => Some(text)
      case _ => LastVersionText(versions[..|versions| - 1], current)
  }

  /** The last text child wins: LastVersionText is the text at the last TextChild, or the old value. */
  lemma {:induction false} LastVersionTextIsLast(versions: seq<VersionElement>, current: Option<string>)
    ensures var k := LastIndex(versions, (v: VersionElement) => v.TextChild?);
      LastVersionText(versions, current) == if k < 0 then current else Some(versions[k].text)
  {
    if |versions| > 0 && !versions[|versions| - 1].TextChild? {
      var front := versions[..|versions| - 1];
      LastVersionTextIsLast(front, current);
      assert forall j :: 0 <= j < |front| ==> front[j] == versions[j];
    }
  }

  /** The elements BuildNugetVersion and IncreaseNugetVersion reach: those before the first
      <version> without children, on which `FirstChild.Value` raises NullReference. */
  function ReachedVersions(versions: seq<VersionElement>): (r: seq<VersionElement>)
    ensures r <= versions
    ensures forall j :: 0 <= j < |r| ==> !r[j].NoChild?
    ensures |r| < |versions| ==> versions[|r|].NoChild?
  {
    var f := FirstIndex(versions, (v: VersionElement) => v.NoChild?);
    if f < 0 then versions else versions[..f]
  }

  /** BuildNugetVersion on loaded <version> elements: NugetVersion after the scan, and the error
      that stopped it. */
  function ReadNugetVersion(versions: seq<VersionElement>, current: Option<string>): Partial<Option<string>>
  {
    var reached := ReachedVersions(versions);
    Partial(LastVersionText(reached, current), if |reached| < |versions| then Some(NullReference) else None)
  }

  /** A text child with a non-empty text: what IncreaseNugetVersion rewrites. */
  predicate IsNonEmptyText(v: VersionElement)
  {
    v.TextChild? && v.text != ""
  }

  function BumpElement(v: VersionElement, newVersion: string): VersionElement
  {
    if IsNonEmptyText(v) then TextChild(newVersion) else v
  }

  /** IncreaseNugetVersion on loaded <version> elements: every non-empty text becomes the new
      version (the list is saved only when no error stopped the scan). */
  function BumpedVersions(versions: seq<VersionElement>, newVersion: string): (r: seq<VersionElement>)
    ensures |r| == |versions|
    ensures forall j :: 0 <= j < |versions| ==> r[j] == BumpElement(versions[j], newVersion)
  {
    MapPrefix(versions, |versions|, (v: VersionElement) => BumpElement(v, newVersion))
  }

  /** IncreaseNugetVersion's NugetVersion after the scan, and the error that stopped it. */
  function BumpNugetVersion(versions: seq<VersionElement>, newVersion: string, current: Option<string>): Partial<Option<string>>
  {
    var reached := ReachedVersions(versions);
    Partial(if FirstIndex(reached, IsNonEmptyText) >= 0 then Some(newVersion) else current,
            if |reached| < |versions| then Some(NullReference) else None)
  }

  /** After a bump without error every non-empty text is the new version, NugetVersion is the new
      version when some text was non-empty, and reading the file back yields the new version unless
      the last text child was empty (that one is not rewritten and is what BuildNugetVersion reads). */
  lemma BumpThenRead(versions: seq<VersionElement>, newVersion: string, current: Option<string>)
    requires BumpNugetVersion(versions, newVersion, current).error.None?
    requires newVersion != ""
    ensures var bumped := BumpedVersions(versions, newVersion);
      var k := LastIndex(versions, (v: VersionElement) => v.TextChild?);
      (forall j :: 0 <= j < |bumped| && IsNonEmptyText(bumped[j]) ==> bumped[j].text == newVersion)
      && ((exists j :: 0 <= j < |versions| && IsNonEmptyText(versions[j])) ==>
            BumpNugetVersion(versions, newVersion, current).value == Some(newVersion))
      && ReadNugetVersion(bumped, current)
         == Partial(if k < 0 then current else if versions[k].text == "" then Some("") else Some(newVersion), None)
  {
    var bumped := BumpedVersions(versions, newVersion);
    var isText := (v: VersionElement) => v.TextChild?;
    assert ReachedVersions(versions) == versions;
    assert forall j :: 0 <= j < |bumped| ==> bumped[j].NoChild? == versions[j].NoChild?;
    assert FirstIndex(bumped, (v: VersionElement) => v.NoChild?) < 0;
    assert ReachedVersions(bumped) == bumped;
    LastIndexSame(bumped, versions, isText, isText);
    LastVersionTextIsLast(bumped, current);
  }

  // =====================================================================
  // AssemblyInfo.cs (GetAssemblyInfo)

  const AssemblyInformationalVersionConst: string := "AssemblyInformationalVersion"
  const AssemblyVersionConst: string := "AssemblyVersion"
  const AssemblyFileVersionConst: string := "AssemblyFileVersion"
  const PropertiesFolderName: string := "Properties"
  const AssemblyFileName: string := "AssemblyInfo.cs"

  /** AssemblyInfo.cs holds no wildcard, so a search for it finds that file alone. */
  lemma AssemblyFileNameIsLiteral()
    ensures IsLiteralPattern(AssemblyFileName)
  {
  }

  /** The three versions GetAssemblyInfo fills; all start unset. */
  datatype AssemblyVersions = AssemblyVersions(informational: Option<string>, assembly: Option<string>, file: Option<string>)

  /** Which field a line feeds. */
  datatype Marker = Informational | Assembly | FileVer | Unmarked

  /** A line starting with "//" is skipped; an indented comment is not. */
  predicate IsComment(line: string)
  {
    StartsWith(line, "//")
  }

  /** The else-if chain over the markers: informational first, then AssemblyVersion, then AssemblyFileVersion. */
  function MarkerOf(line: string): (m: Marker)
    ensures m == Unmarked <==>
      !Contains(line, AssemblyInformationalVersionConst) && !Contains(line, AssemblyVersionConst)
      && !Contains(line, AssemblyFileVersionConst)
    ensures m == Informational <==> Contains(line, AssemblyInformationalVersionConst)
  {
    if Contains(line, AssemblyInformationalVersionConst) then Informational
    else if Contains(line, AssemblyVersionConst) then Assembly
    else if Contains(line, AssemblyFileVersionConst) then FileVer
    else Unmarked
  }

  /** The field of `v` that `m` names. */
  function Field(v: AssemblyVersions, m: Marker): Option<string>
  {
    match m
    case Informational => v.informational
    case Assembly => v.assembly
    case FileVer => v.file
    case Unmarked => None
  }

  /** `v` with the field that `m` names set to the version. */
  function SetField(v: AssemblyVersions, m: Marker, version: string): (r: AssemblyVersions)
    requires m != Unmarked
    ensures Field(r, m) == Some(version)
    ensures forall other :: other != m && other != Unmarked ==> Field(r, other) == Field(v, other)
  {
    match m
    case Informational => v.(informational := Some(version))
    case Assembly => v.(assembly := Some(version))
    case FileVer => v.(file := Some(version))
  }

  /** A line feeding field `m`: not a comment, and `m` is the first marker of the chain it contains. */
  predicate Feeds(line: string, m: Marker)
  {
    !IsComment(line) && MarkerOf(line) == m
  }

  /** One iteration of the line loop: a line feeding a field reads its first quoted literal into it. */
  function ScanLine(v: AssemblyVersions, line: string): Partial<AssemblyVersions>
  {
    if IsComment(line) || MarkerOf(line) == Unmarked then Partial(v, None)
    else match ReadAsemblyVersion(line)
      case Err(e) => Partial(v, Some(e))
      case Ok(version) => Partial(SetField(v, MarkerOf(line), version), None)
  }

  /** The line loop: the fields after the lines, up to the first line whose literal cannot be read. */
  function ScanLines(lines: seq<string>, init: AssemblyVersions): Partial<AssemblyVersions>
  {
    if |lines| == 0 then Partial(init, None)
    else
      var p := ScanLines(lines[..|lines| - 1], init);
      if p.error.Some? then p else ScanLine(p.value, lines[|lines| - 1])
  }

  /** Once a line has stopped the scan, the lines after it change nothing. */
  lemma {:induction false} ScanLinesStops(lines: seq<string>, n: nat, init: AssemblyVersions)
    requires n <= |lines|
    requires ScanLines(lines[..n], init).error.Some?
    ensures ScanLines(lines, init) == ScanLines(lines[..n], init)
  {
    if n < |lines| {
      var front := lines[..|lines| - 1];
      assert front[..n] == lines[..n];
      ScanLinesStops(front, n, init);
    } else {
      assert lines[..n] == lines;
    }
  }

  /** A line that stops the scan: it feeds a field but has fewer than two quotes. */
  predicate Unreadable(line: string)
  {
    !IsComment(line) && MarkerOf(line) != Unmarked && ReadAsemblyVersion(line).Err?
  }

  /** The scan fails (with ArgumentOutOfRange) exactly when some line feeding a field cannot be read;
      otherwise each field holds the literal of the last line feeding it, or keeps its old value. */
  lemma {:induction false} ScanLinesLastWins(lines: seq<string>, init: AssemblyVersions, m: Marker)
    requires m != Unmarked
    ensures var p := ScanLines(lines, init);
      (p.error.Some? <==> exists j :: 0 <= j < |lines| && Unreadable(lines[j]))
      && (p.error.Some? ==> p.error == Some(ArgumentOutOfRange))
      && (p.error.None? ==>
            var k := LastIndex(lines, (l: string) => Feeds(l, m));
            Field(p.value, m) == if k < 0 then Field(init, m) else Some(ReadAsemblyVersion(lines[k]).value))
  {
    if |lines| > 0 {
      var front := lines[..|lines| - 1];
      var last := lines[|lines| - 1];
      ScanLinesLastWins(front, init, m);
      assert forall j :: 0 <= j < |front| ==> front[j] == lines[j];
      if ScanLines(front, init).error.None? && Unreadable(last) {
        assert Unreadable(lines[|lines| - 1]);
      }
    }
  }

  /** The directory GetAssemblyInfo looks in: the project's directory combined with "Properties";
      with no directory (a null path or a root) the name stands alone under an empty first segment. */
  function PropertiesDir(path: Option<FilePath>): (r: FilePath)
    ensures |r| >= 2 && FileName(r) == PropertiesFolderName
  {
    var dir := if path.Some? then DirectoryName(path.value) else None;
    if dir.Some? then Combine(dir.value, PropertiesFolderName) else ["", PropertiesFolderName]
  }

  /** A line that feeds no field leaves the versions as they were, and a line containing several
      markers feeds only the first one of the chain. */
  lemma ScanLineChangesOneField(v: AssemblyVersions, line: string, m: Marker)
    requires m != Unmarked
    requires ScanLine(v, line).error.None?
    ensures !Feeds(line, m) ==> Field(ScanLine(v, line).value, m) == Field(v, m)
    ensures Contains(line, AssemblyInformationalVersionConst) && !IsComment(line) && m != Informational
      ==> Field(ScanLine(v, line).value, m) == Field(v, m)
  {
  }
}
