/** The files the engine reads and writes: file paths, the abstract XML
    documents (MSBuild manifests, packages.config, nuspec), text files of
    lines, and a disk whose directory enumeration order is given. */
module Documents {
  import opened Wrappers
  import opened Text

  // ---------------------------------------------------------------------
  // Paths

  /** A full path as its segments, drive first: C:\work\App\App.csproj is ["C:", "work", "App", "App.csproj"]. */
  type FilePath = seq<string>

  /** The path rendered with back-slashes, as it appears in messages. */
  function PathText(p: FilePath): string
  {
    Join('\\', p)
  }

  /** Path.GetFileName / FileInfo.Name: the last segment. */
  function FileName(p: FilePath): string
  {
    if |p| == 0 then "" else p[|p| - 1]
  }

  /** Path.GetDirectoryName: the parent directory, null for a root. */
  function DirectoryName(p: FilePath): (r: Option<FilePath>)
    ensures r.Some? <==> |p| >= 2
    ensures r.Some? ==> r.value + [FileName(p)] == p
  {
    if |p| < 2 then None else Some(p[..|p| - 1])
  }

  /** Path.Combine(dir, name) for a single relative segment. */
  function Combine(dir: FilePath, name: string): (r: FilePath)
    ensures DirectoryName(r) == (if |dir| == 0 then None else Some(dir))
    ensures FileName(r) == name
  {
    dir + [name]
  }

  /** The index of the last '.', or -1. */
  function LastDot(s: string): (r: int)
    ensures -1 <= r < |s|
    ensures r >= 0 ==> s[r] == '.'
    ensures forall i :: r < i < |s| ==> s[i] != '.'
  {
    if |s| == 0 then -1
    else if s[|s| - 1] == '.' then |s| - 1
    else
      var k := LastDot(s[..|s| - 1]);
      assert forall i :: 0 <= i < |s| - 1 ==> s[..|s| - 1][i] == s[i];
      k
  }

  /** Path.GetFileNameWithoutExtension: the file name up to its last '.'. */
  function FileNameWithoutExtension(p: FilePath): (r: string)
    ensures '.' !in FileName(p) ==> r == FileName(p)
    ensures '.' in FileName(p) ==>
      |r| < |FileName(p)| && FileName(p)[..|r|] == r && FileName(p)[|r|] == '.' && '.' !in FileName(p)[|r| + 1..]
  {
    var name := FileName(p);
    var k := LastDot(name);
    if k < 0 then
      assert '.' !in name;
      name
    else
      assert '.' in name;
      name[..k]
  }

  /** `d` lies strictly under `ancestor`. */
  predicate IsStrictlyUnder(d: FilePath, ancestor: FilePath)
  {
    |ancestor| < |d| && d[..|ancestor|] == ancestor
  }

  // ---------------------------------------------------------------------
  // Search patterns

  /** A Directory.GetFiles search pattern: '*' matches any run, '?' any one character. */
  predicate Matches(pattern: string, name: string)
    decreases |pattern| + |name|
  {
    if |pattern| == 0 then |name| == 0
    else if pattern[0] == '*' then Matches(pattern[1..], name) || (|name| > 0 && Matches(pattern, name[1..]))
    else |name| > 0 && (pattern[0] == '?' || pattern[0] == name[0]) && Matches(pattern[1..], name[1..])
  }

  predicate IsLiteralPattern(pattern: string)
  {
    '*' !in pattern && '?' !in pattern
  }

  /** A pattern without wildcards (such as "AssemblyInfo.cs") matches exactly its own text. */
  lemma {:induction false} LiteralPatternMatches(pattern: string, name: string)
    requires IsLiteralPattern(pattern)
    ensures Matches(pattern, name) <==> name == pattern
    decreases |pattern|
  {
    if |pattern| > 0 && |name| > 0 {
      LiteralPatternMatches(pattern[1..], name[1..]);
      if name == pattern {
        assert name[1..] == pattern[1..];
      }
      if pattern[0] == name[0] && name[1..] == pattern[1..] {
        assert name == [name[0]] + name[1..];
        assert pattern == [pattern[0]] + pattern[1..];
      }
    }
  }

  /** "*" followed by a literal suffix (such as "*.csproj") matches exactly the names ending in it. */
  lemma {:induction false} StarSuffixMatches(suffix: string, name: string)
    requires IsLiteralPattern(suffix)
    ensures Matches("*" + suffix, name) <==> |suffix| <= |name| && name[|name| - |suffix|..] == suffix
    decreases |name|
  {
    var p := "*" + suffix;
    assert p[1..] == suffix;
    LiteralPatternMatches(suffix, name);
    if |name| > 0 {
      StarSuffixMatches(suffix, name[1..]);
      assert |suffix| <= |name| - 1 ==> name[1..][|name| - 1 - |suffix|..] == name[|name| - |suffix|..];
    }
  }

  // ---------------------------------------------------------------------
  // XML documents

  /** A child element of a manifest's <Reference>: its element name and its InnerText. */
  datatype ReferenceChild = ReferenceChild(name: string, text: string)

  /** An MSBuild <Reference> element: its Include attribute, if any, and its child elements. */
  datatype Reference = Reference(includeAttr: Option<string>, children: seq<ReferenceChild>)

  /** A <package> (packages.config) or <dependency> (nuspec) element: its id and version attributes. */
  datatype Entry = Entry(id: Option<string>, version: Option<string>)

  /** A <version> element by its first child: none, a text node, or some other node (whose Value is null). */
  datatype VersionElement = NoChild | TextChild(text: string) | OtherChild

  /** A loaded XML document, reduced to the element lists the engine reads: the MSBuild-namespace
      <Reference> elements, and the <package>, <version> and <dependency> elements, each in document order. */
  datatype XmlDoc = XmlDoc(
    references: seq<Reference>,
    packages: seq<Entry>,
    versions: seq<VersionElement>,
    dependencies: seq<Entry>)

  /** A file is either an XML document or a text file of lines. */
  datatype FileContent = Xml(doc: XmlDoc) | Lines(lines: seq<string>)

  /** The contents of the disk's files by path. */
  type Files = map<FilePath, FileContent>

  /** What an operation on the disk returns, together with the files it leaves behind. */
  datatype Effect<T> = Effect(result: Result<T>, files: Files)

  // ---------------------------------------------------------------------
  // The disk

  /** Every directory (including each root) and every file in enumeration order;
      the files themselves may be rewritten but never created or removed. */
  class Disk {
    const directories: seq<FilePath>
    const listing: seq<FilePath>
    var files: Files

    ghost predicate Valid()
      reads this
    {
      forall p :: p in files <==> p in listing
    }

    constructor (directories: seq<FilePath>, files: Files, listing: seq<FilePath>)
      requires forall p :: p in files <==> p in listing
      ensures Valid()
      ensures this.directories == directories && this.files == files && this.listing == listing
    {
      this.directories := directories;
      this.files := files;
      this.listing := listing;
    }

    /** File.Exists */
    predicate FileExists(p: FilePath)
      reads this
    {
      p in files
    }

    /** Directory.Exists */
    predicate DirectoryExists(d: FilePath)
    {
      d in directories
    }

    /** Directory.GetFiles(dir, pattern, TopDirectoryOnly) */
    function TopFiles(dir: FilePath, pattern: string): (r: Result<seq<FilePath>>)
      ensures r.Err? <==> dir !in directories
      ensures r.Err? ==> r.error == DirectoryNotFound(PathText(dir))
      ensures r.Ok? ==> r.value == FilesIn(listing, dir, pattern)
    {
      if dir !in directories then Err(DirectoryNotFound(PathText(dir))) else Ok(FilesIn(listing, dir, pattern))
    }

    /** Directory.GetFiles(dir, pattern, AllDirectories) */
    function AllFiles(dir: FilePath, pattern: string): (r: Result<seq<FilePath>>)
      ensures r.Err? <==> dir !in directories
      ensures r.Err? ==> r.error == DirectoryNotFound(PathText(dir))
      ensures r.Ok? ==> r.value == FilesUnder(listing, dir, pattern)
    {
      if dir !in directories then Err(DirectoryNotFound(PathText(dir))) else Ok(FilesUnder(listing, dir, pattern))
    }

    /** Directory.GetDirectories(dir, "*", AllDirectories): every directory below `dir`, not `dir` itself. */
    function AllDirectories(dir: FilePath): (r: Result<seq<FilePath>>)
      ensures r.Err? <==> dir !in directories
      ensures r.Err? ==> r.error == DirectoryNotFound(PathText(dir))
      ensures r.Ok? ==> r.value == DirectoriesUnder(directories, dir)
    {
      if dir !in directories then Err(DirectoryNotFound(PathText(dir))) else Ok(DirectoriesUnder(directories, dir))
    }

    /** XmlDocument.Load */
    function LoadXml(p: FilePath): Result<XmlDoc>
      reads this
    {
      Load(files, p)
    }

    /** File.ReadAllLines */
    function ReadLines(p: FilePath): Result<seq<string>>
      reads this
    {
      ReadAllLines(files, p)
    }

    /** XmlDocument.Save over a file that exists. */
    method Save(p: FilePath, doc: XmlDoc)
      requires Valid() && p in files
      modifies this
      ensures Valid()
      ensures files == old(files)[p := Xml(doc)]
    {
      files := files[p := Xml(doc)];
    }

    /** File.WriteAllLines over a file that exists. */
    method WriteLines(p: FilePath, lines: seq<string>)
      requires Valid() && p in files
      modifies this
      ensures Valid()
      ensures files == old(files)[p := Lines(lines)]
    {
      files := files[p := Lines(lines)];
    }
  }

  /** The files directly in `dir` whose names match, in listing order. */
  function FilesIn(listing: seq<FilePath>, dir: FilePath, pattern: string): (r: seq<FilePath>)
    ensures forall p :: p in r <==> p in listing && DirectoryName(p) == Some(dir) && Matches(pattern, FileName(p))
    ensures |r| <= |listing|
  {
    if |listing| == 0 then []
    else
      var p := listing[|listing| - 1];
      FilesIn(listing[..|listing| - 1], dir, pattern)
      + (if DirectoryName(p) == Some(dir) && Matches(pattern, FileName(p)) then [p] else [])
  }

  /** A literal pattern finds exactly the file of that name in `dir`: if it is listed, it is the first match. */
  lemma FilesInLiteral(listing: seq<FilePath>, dir: FilePath, name: string)
    requires IsLiteralPattern(name) && |dir| > 0
    requires Combine(dir, name) in listing
    ensures |FilesIn(listing, dir, name)| > 0 && FilesIn(listing, dir, name)[0] == Combine(dir, name)
  {
    var r := FilesIn(listing, dir, name);
    LiteralPatternMatches(name, name);
    assert Combine(dir, name) in r;
    var q := r[0];
    LiteralPatternMatches(name, FileName(q));
    assert q == DirectoryName(q).value + [FileName(q)];
  }

  /** A literal pattern finds nothing in `dir` but the file of that name. */
  lemma FilesInLiteralOnly(listing: seq<FilePath>, dir: FilePath, name: string)
    requires IsLiteralPattern(name)
    ensures forall p :: p in FilesIn(listing, dir, name) ==> p == Combine(dir, name)
  {
    forall p | p in FilesIn(listing, dir, name)
      ensures p == Combine(dir, name)
    {
      LiteralPatternMatches(name, FileName(p));
    }
  }

  /** No path is named twice. */
  predicate Distinct(paths: seq<FilePath>)
  {
    forall i, j :: 0 <= i < j < |paths| ==> paths[i] != paths[j]
  }

  /** A listing that names no file twice gives matches that name no file twice. */
  lemma {:induction false} FilesInDistinct(listing: seq<FilePath>, dir: FilePath, pattern: string)
    requires Distinct(listing)
    ensures Distinct(FilesIn(listing, dir, pattern))
    decreases |listing|
  {
    if |listing| > 0 {
      var front := listing[..|listing| - 1];
      assert forall i :: 0 <= i < |front| ==> front[i] == listing[i];
      FilesInDistinct(front, dir, pattern);
      var last := listing[|listing| - 1];
      assert last !in front;
      var found := FilesIn(front, dir, pattern);
      assert last !in found;
      var r := FilesIn(listing, dir, pattern);
      assert r == found + (if DirectoryName(last) == Some(dir) && Matches(pattern, FileName(last)) then [last] else []);
      forall i, j | 0 <= i < j < |r|
        ensures r[i] != r[j]
      {
        if j < |found| {
          assert r[i] == found[i] && r[j] == found[j];
        } else {
          assert r[i] == found[i] && found[i] in found && r[j] == last;
        }
      }
    }
  }

  /** The files anywhere below `dir` whose names match, in listing order. */
  function FilesUnder(listing: seq<FilePath>, dir: FilePath, pattern: string): (r: seq<FilePath>)
    ensures forall p :: p in r <==> p in listing && IsStrictlyUnder(p, dir) && Matches(pattern, FileName(p))
    ensures |r| <= |listing|
  {
    if |listing| == 0 then []
    else
      var p := listing[|listing| - 1];
      FilesUnder(listing[..|listing| - 1], dir, pattern)
      + (if IsStrictlyUnder(p, dir) && Matches(pattern, FileName(p)) then [p] else [])
  }

  /** The directories strictly below `dir`, in enumeration order. */
  function DirectoriesUnder(directories: seq<FilePath>, dir: FilePath): (r: seq<FilePath>)
    ensures forall d :: d in r <==> d in directories && IsStrictlyUnder(d, dir)
    ensures |r| <= |directories|
  {
    if |directories| == 0 then []
    else
      var d := directories[|directories| - 1];
      DirectoriesUnder(directories[..|directories| - 1], dir) + (if IsStrictlyUnder(d, dir) then [d] else [])
  }

  /** Loading a file as XML: missing files and text files fail. */
  function Load(files: Files, p: FilePath): (r: Result<XmlDoc>)
    ensures r.Ok? <==> p in files && files[p].Xml?
    ensures r.Ok? ==> r.value == files[p].doc
  {
    if p !in files then Err(FileNotFound(PathText(p)))
    else match files[p]
      case Xml(doc) => Ok(doc)
      case Lines(_) => Err(XmlError(PathText(p)))
  }

  /** Reading a file as lines: missing files fail, and so (in this model) do XML documents. */
  function ReadAllLines(files: Files, p: FilePath): (r: Result<seq<string>>)
    ensures r.Ok? <==> p in files && files[p].Lines?
    ensures r.Ok? ==> r.value == files[p].lines
  {
    if p !in files then Err(FileNotFound(PathText(p)))
    else match files[p]
      case Lines(lines) => Ok(lines)
      case Xml(_) => Err(Unreadable(PathText(p)))
  }
}
