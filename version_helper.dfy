/** VersionHelper: bumping one dot-component of a version, reading the first
    quoted literal of an AssemblyInfo line, and the version-format rule the
    input forms enforce on a new version. */
module VersionHelper {
  import opened Wrappers
  import opened Text

  /** The defaults of GetIncreasionVersion's optional parameters. */
  const DefaultStep: int := 1
  const DefaultVersionNum: int := 4

  /** GetIncreasionVersion: the component at position versionNum - 1 becomes its integer
      value plus the step (unchecked Int32 addition), printed in decimal. */
  function GetIncreasionVersion(assVersion: string, step: int, versionNum: int): (r: Result<string>)
    requires IsInt32(step)
  {
    var verArr := Split(assVersion, '.');
    var k := versionNum - 1;
    if k < 0 || k >= |verArr| then Err(IndexOutOfRange)
    else
      var n :- ParseInt32(verArr[k]);
      Ok(Join('.', verArr[k := IntToString(Wrap32(n + step))]))
  }

  /** The bumped version fails exactly when there are fewer than versionNum components
      (or versionNum is not positive) or the chosen component is not an Int32. */
  lemma IncreasionVersionFails(assVersion: string, step: int, versionNum: int)
    requires IsInt32(step)
    ensures var parts := Split(assVersion, '.');
      GetIncreasionVersion(assVersion, step, versionNum).Err? <==>
        versionNum < 1 || |parts| < versionNum || ParseInt32(parts[versionNum - 1]).Err?
  {
  }

  /** A bumped version has the same components except the chosen one, which is the old value
      plus the step (unchecked Int32 addition) in decimal. */
  lemma IncreasionVersionComponents(assVersion: string, step: int, versionNum: int)
    requires IsInt32(step)
    requires GetIncreasionVersion(assVersion, step, versionNum).Ok?
    ensures 1 <= versionNum <= |Split(assVersion, '.')| && ParseInt32(Split(assVersion, '.')[versionNum - 1]).Ok?
    ensures var parts := Split(assVersion, '.');
      var newParts := Split(GetIncreasionVersion(assVersion, step, versionNum).value, '.');
      |newParts| == |parts| && (forall i :: 0 <= i < |parts| && i != versionNum - 1 ==> newParts[i] == parts[i])
      && newParts[versionNum - 1] == IntToString(Wrap32(ParseInt32(parts[versionNum - 1]).value + step))
  {
    var parts := Split(assVersion, '.');
    var k := versionNum - 1;
    var piece := IntToString(Wrap32(ParseInt32(parts[k]).value + step));
    IncreasionVersionIsJoin(assVersion, step, versionNum);
    var r := GetIncreasionVersion(assVersion, step, versionNum).value;
    UpdatedComponents(parts, k, piece, r, Split(r, '.'));
  }

  /** Joining with one component replaced and splitting again: that component changes, no other. */
  lemma UpdatedComponents(parts: seq<string>, k: nat, piece: string, r: string, newParts: seq<string>)
    requires k < |parts|
    requires forall i :: 0 <= i < |parts| ==> '.' !in parts[i]
    requires '.' !in piece
    requires r == Join('.', parts[k := piece]) && newParts == Split(r, '.')
    ensures |newParts| == |parts| && newParts[k] == piece
    ensures forall i :: 0 <= i < |parts| && i != k ==> newParts[i] == parts[i]
  {
    SplitJoinUpdate(parts, '.', k, piece);
  }

  /** The bumped component parses back to the old value plus the step, so its leading zeros are gone. */
  lemma IncreasionVersionParsesBack(assVersion: string, step: int, versionNum: int)
    requires IsInt32(step)
    requires GetIncreasionVersion(assVersion, step, versionNum).Ok?
    ensures 1 <= versionNum <= |Split(assVersion, '.')| && ParseInt32(Split(assVersion, '.')[versionNum - 1]).Ok?
    ensures 1 <= versionNum <= |Split(GetIncreasionVersion(assVersion, step, versionNum).value, '.')|
    ensures var component := Split(GetIncreasionVersion(assVersion, step, versionNum).value, '.')[versionNum - 1];
      var m := Wrap32(ParseInt32(Split(assVersion, '.')[versionNum - 1]).value + step);
      ParseInt32(component) == Ok(m) && (component == "0" || component[0] != '0')
  {
    IncreasionVersionComponents(assVersion, step, versionNum);
    var m := Wrap32(ParseInt32(Split(assVersion, '.')[versionNum - 1]).value + step);
    PrintedParsesBack(IntToString(m), m);
  }

  /** A printed Int32 parses back to itself and has no leading zero. */
  lemma PrintedParsesBack(component: string, m: int)
    requires IsInt32(m) && component == IntToString(m)
    ensures ParseInt32(component) == Ok(m) && (component == "0" || component[0] != '0')
  {
    ParseIntToString(m);
  }

  /** Helper for IncreasionVersionComponents: a successful bump unfolds to the rejoined components. */
  lemma IncreasionVersionIsJoin(assVersion: string, step: int, versionNum: int)
    requires IsInt32(step)
    requires GetIncreasionVersion(assVersion, step, versionNum).Ok?
    ensures var parts := Split(assVersion, '.');
      0 <= versionNum - 1 < |parts| && ParseInt32(parts[versionNum - 1]).Ok?
      && GetIncreasionVersion(assVersion, step, versionNum).value
         == Join('.', parts[versionNum - 1 := IntToString(Wrap32(ParseInt32(parts[versionNum - 1]).value + step))])
  {
  }

  /** ReadAsemblyVersion: the text between the first '"' and the next one. A line with fewer
      than two quotes asks Substring for a negative length. */
  function ReadAsemblyVersion(value: string): (r: Result<string>)
    ensures r.Ok? ==> '"' !in r.value
    ensures r.Err? ==> r.error == ArgumentOutOfRange
  {
    var startIndex := IndexOf(value, '"');
    var endIndex := IndexOfFrom(value, '"', startIndex + 1);
    var version := Substring(value, startIndex + 1, endIndex - startIndex - 1);
    if version.Ok? then
      assert version.value == value[startIndex + 1..endIndex];
      Ok(version.value)
    else version
  }

  /** ReadAsemblyVersion returns the second '"'-separated piece of the line, and fails
      exactly when the line has fewer than two quotes. */
  lemma ReadAsemblyVersionIsSecondPiece(value: string)
    ensures var pieces := Split(value, '"');
      ReadAsemblyVersion(value) == if |pieces| >= 3 then Ok(pieces[1]) else Err(ArgumentOutOfRange)
  {
    if '"' in value {
      var i := IndexOf(value, '"');
      if '"' in value[i + 1..] {
        ReadBetweenQuotes(value, i, IndexOf(value[i + 1..], '"'));
      } else {
        ReadOneQuote(value, i);
      }
    } else {
      assert Split(value, '"') == [value];
      assert IndexOfFrom(value, '"', 0) == -1;
    }
  }

  /** A line with two quotes: the second piece is the text between them. */
  lemma ReadBetweenQuotes(value: string, i: int, j: int)
    requires '"' in value && i == IndexOf(value, '"')
    requires '"' in value[i + 1..] && j == IndexOf(value[i + 1..], '"')
    ensures |Split(value, '"')| >= 3
    ensures ReadAsemblyVersion(value) == Ok(Split(value, '"')[1])
  {
    SplitSecondPiece(value, i, j);
    ReadQuoted(value, i, j);
  }

  lemma ReadQuoted(value: string, i: int, j: int)
    requires '"' in value && i == IndexOf(value, '"')
    requires '"' in value[i + 1..] && j == IndexOf(value[i + 1..], '"')
    ensures ReadAsemblyVersion(value) == Ok(value[i + 1..][..j])
  {
    var e := IndexOfFrom(value, '"', i + 1);
    assert e == i + 1 + j;
    assert value[i + 1..e] == value[i + 1..][..j];
  }

  lemma SplitSecondPiece(value: string, i: int, j: int)
    requires '"' in value && i == IndexOf(value, '"')
    requires '"' in value[i + 1..] && j == IndexOf(value[i + 1..], '"')
    ensures |Split(value, '"')| >= 3 && Split(value, '"')[1] == value[i + 1..][..j]
  {
    var rest := value[i + 1..];
    assert Split(value, '"') == [value[..i]] + Split(rest, '"');
    assert Split(rest, '"') == [rest[..j]] + Split(rest[j + 1..], '"');
  }

  /** A line with one quote: two pieces, and the closing quote is missing. */
  lemma ReadOneQuote(value: string, i: int)
    requires '"' in value && i == IndexOf(value, '"')
    requires '"' !in value[i + 1..]
    ensures |Split(value, '"')| == 2
    ensures ReadAsemblyVersion(value) == Err(ArgumentOutOfRange)
  {
    var rest := value[i + 1..];
    assert Split(value, '"') == [value[..i]] + Split(rest, '"');
    assert Split(rest, '"') == [rest];
    assert IndexOfFrom(value, '"', i + 1) == -1;
  }

  /** The version-format rule at the input forms: at least three dot-separated runs of digits. */
  predicate IsVersionFormat(s: string)
  {
    var parts := Split(s, '.');
    |parts| >= 3 && forall i :: 0 <= i < |parts| ==> |parts[i]| > 0 && AllDigits(parts[i])
  }

  /** A well-formed version holds no ',', '=' or '"', so it survives as one Include
      segment and as one quoted literal. */
  lemma VersionFormatChars(s: string)
    requires IsVersionFormat(s)
    ensures ',' !in s && '=' !in s && '"' !in s
  {
    var parts := Split(s, '.');
    JoinSplit(s, '.');
    forall c | c == ',' || c == '=' || c == '"'
      ensures c !in s
    {
      assert !IsDigit(c);
      assert forall i, k :: 0 <= i < |parts| && 0 <= k < |parts[i]| ==> parts[i][k] != c;
      JoinExcludes('.', parts, c);
    }
  }
}
