/** The .NET string operations the core is built from, with their .NET
    behaviour on edge cases (empty pieces, missing characters, empty old
    values, signs and white space in numbers, Int32 wrap-around). */
module Text {
  import opened Wrappers

  // ---------------------------------------------------------------------
  // Characters and white space

  /** char.IsWhiteSpace: the Unicode separators plus U+0009..U+000D, U+0085, U+00A0. */
  predicate IsWhiteSpace(c: char)
  {
    c == ' ' || ('\t' <= c <= '\r') || c == '\U{85}' || c == '\U{A0}' || c == '\U{1680}'
    || ('\U{2000}' <= c <= '\U{200A}') || c == '\U{2028}' || c == '\U{2029}'
    || c == '\U{202F}' || c == '\U{205F}' || c == '\U{3000}'
  }

  /** A string made of white space only (the empty string included). */
  predicate AllWhiteSpace(s: string)
  {
    forall i :: 0 <= i < |s| ==> IsWhiteSpace(s[i])
  }

  /** string.IsNullOrEmpty */
  predicate IsNullOrEmpty(s: Option<string>)
  {
    s.None? || s.value == ""
  }

  /** string.IsNullOrWhiteSpace */
  predicate IsNullOrWhiteSpace(s: Option<string>)
  {
    s.None? || AllWhiteSpace(s.value)
  }

  predicate IsDigit(c: char)
  {
    '0' <= c <= '9'
  }

  /** Upper-casing of the ASCII letters; culture-specific folding of other letters is not modelled. */
  function FoldCase(c: char): char
  {
    if 'a' <= c <= 'z' then ((c as int) - 32) as char else c
  }

  /** Equals(other, StringComparison.CurrentCultureIgnoreCase), on ASCII letters. */
  predicate EqualsIgnoreCase(a: string, b: string)
  {
    |a| == |b| && forall i :: 0 <= i < |a| ==> FoldCase(a[i]) == FoldCase(b[i])
  }

  /** The text a null string interpolates to: `$"{s}"` renders null as empty. */
  function NameText(name: Option<string>): string
  {
    if name.Some? then name.value else ""
  }

  // ---------------------------------------------------------------------
  // Searching

  /** string.IndexOf(char) with ordinal comparison: -1 when absent. */
  function IndexOf(s: string, c: char): (r: int)
    ensures r == -1 <==> c !in s
    ensures r >= 0 ==> r < |s| && s[r] == c && forall j :: 0 <= j < r ==> s[j] != c
    decreases |s|
  {
    if |s| == 0 then -1
    else if s[0] == c then 0
    else
      var k := IndexOf(s[1..], c);
      assert forall j :: 1 <= j < |s| ==> s[j] == s[1..][j - 1];
      if k < 0 then -1 else k + 1
  }

  /** string.IndexOf(char, startIndex): the first occurrence at or after `start`. */
  function IndexOfFrom(s: string, c: char, start: nat): (r: int)
    requires start <= |s|
    ensures r == -1 <==> c !in s[start..]
    ensures r >= 0 ==> start <= r < |s| && s[r] == c && forall j :: start <= j < r ==> s[j] != c
  {
    var k := IndexOf(s[start..], c);
    assert forall j :: start <= j < |s| ==> s[j] == s[start..][j - start];
    if k < 0 then -1 else start + k
  }

  /** string.StartsWith(prefix) */
  predicate StartsWith(s: string, prefix: string)
  {
    |prefix| <= |s| && s[..|prefix|] == prefix
  }

  /** string.Contains(value) with ordinal comparison. */
  predicate Contains(s: string, t: string)
    decreases |s|
  {
    StartsWith(s, t) || (|s| > 0 && Contains(s[1..], t))
  }

  /** string.IndexOfAny("0123456789".ToCharArray()) */
  function IndexOfDigit(s: string): (r: int)
    ensures r == -1 <==> forall i :: 0 <= i < |s| ==> !IsDigit(s[i])
    ensures r >= 0 ==> r < |s| && IsDigit(s[r]) && forall i :: 0 <= i < r ==> !IsDigit(s[i])
    decreases |s|
  {
    if |s| == 0 then -1
    else if IsDigit(s[0]) then 0
    else
      var k := IndexOfDigit(s[1..]);
      assert forall i :: 1 <= i < |s| ==> s[i] == s[1..][i - 1];
      if k < 0 then -1 else k + 1
  }

  /** string.Substring(start, length): fails with ArgumentOutOfRange outside the string. */
  function Substring(s: string, start: int, length: int): (r: Result<string>)
    ensures r.Ok? <==> 0 <= start && 0 <= length && start + length <= |s|
    ensures r.Ok? ==> |r.value| == length && forall i :: 0 <= i < length ==> r.value[i] == s[start + i]
  {
    if 0 <= start && 0 <= length && start + length <= |s| then Ok(s[start..start + length])
    else Err(ArgumentOutOfRange)
  }

  // ---------------------------------------------------------------------
  // Split and Join

  /** string.Split(char): the pieces between separators; never empty. */
  function Split(s: string, sep: char): (parts: seq<string>)
    ensures |parts| >= 1
    ensures forall i :: 0 <= i < |parts| ==> sep !in parts[i]
    decreases |s|
  {
    var i := IndexOf(s, sep);
    if i < 0 then [s] else [s[..i]] + Split(s[i + 1..], sep)
  }

  /** string.Join(separator, parts) */
  function Join(sep: char, parts: seq<string>): string
  {
    if |parts| == 0 then ""
    else if |parts| == 1 then parts[0]
    else parts[0] + [sep] + Join(sep, parts[1..])
  }

  /** Splitting and joining again on the same separator gives back the text. */
  lemma {:induction false} JoinSplit(s: string, sep: char)
    ensures Join(sep, Split(s, sep)) == s
    decreases |s|
  {
    var i := IndexOf(s, sep);
    if i < 0 {
      assert Split(s, sep) == [s];
    } else {
      var rest := s[i + 1..];
      var tail := Split(rest, sep);
      var parts := [s[..i]] + tail;
      assert Split(s, sep) == parts;
      JoinSplit(rest, sep);
      assert parts[1..] == tail && |parts| >= 2;
      assert Join(sep, parts) == s[..i] + [sep] + rest;
      assert s == s[..i] + [sep] + rest;
    }
  }

  /** The first piece of a split is the text before the first separator. */
  lemma SplitFirst(s: string, sep: char)
    ensures sep in s ==>
      |Split(s, sep)| >= 2 && Split(s, sep)[0] == s[..IndexOf(s, sep)]
      && Split(s, sep)[1..] == Split(s[IndexOf(s, sep) + 1..], sep)
    ensures sep !in s ==> Split(s, sep) == [s]
  {
  }

  /** Joining pieces free of the separator and splitting again gives back the pieces. */
  lemma {:induction false} SplitJoin(parts: seq<string>, sep: char)
    requires |parts| >= 1
    requires forall i :: 0 <= i < |parts| ==> sep !in parts[i]
    ensures Split(Join(sep, parts), sep) == parts
  {
    if |parts| == 1 {
      assert IndexOf(parts[0], sep) == -1;
    } else {
      var s := Join(sep, parts);
      var rest := Join(sep, parts[1..]);
      assert s == parts[0] + [sep] + rest;
      assert s[|parts[0]|] == sep;
      assert s[..|parts[0]|] == parts[0];
      assert IndexOf(s, sep) == |parts[0]|;
      assert s[|parts[0]| + 1..] == rest;
      SplitJoin(parts[1..], sep);
    }
  }

  /** A character absent from every piece and distinct from the separator is absent from the join. */
  lemma {:induction false} JoinExcludes(sep: char, parts: seq<string>, c: char)
    requires c != sep
    requires forall i :: 0 <= i < |parts| ==> c !in parts[i]
    ensures c !in Join(sep, parts)
  {
    if |parts| >= 2 {
      JoinExcludes(sep, parts[1..], c);
    }
  }

  /** Joining a sequence with one slot replaced: the pieces come back, the one slot changed. */
  lemma SplitJoinUpdate(parts: seq<string>, sep: char, k: nat, piece: string)
    requires k < |parts|
    requires forall i :: 0 <= i < |parts| ==> sep !in parts[i]
    requires sep !in piece
    ensures Split(Join(sep, parts[k := piece]), sep) == parts[k := piece]
  {
    SplitJoin(parts[k := piece], sep);
  }

  // ---------------------------------------------------------------------
  // Replace

  /** Every non-overlapping occurrence of `o` in `s`, scanned left to right, replaced by `n`. */
  function ReplaceAll(s: string, o: string, n: string): string
    requires |o| > 0
    decreases |s|
  {
    if |s| < |o| then s
    else if s[..|o|] == o then n + ReplaceAll(s[|o|..], o, n)
    else [s[0]] + ReplaceAll(s[1..], o, n)
  }

  /** string.Replace(oldValue, newValue): an empty old value raises ArgumentException. */
  function Replace(s: string, o: string, n: string): (r: Result<string>)
    ensures r.Err? <==> o == ""
    ensures r.Ok? ==> r.value == ReplaceAll(s, o, n)
  {
    if |o| == 0 then Err(EmptyOldValue) else Ok(ReplaceAll(s, o, n))
  }

  /** Replacing a whole text that is the old value yields the new value. */
  lemma ReplaceWhole(o: string, n: string)
    requires |o| > 0
    ensures ReplaceAll(o, o, n) == n
  {
    assert o[..|o|] == o;
    assert o[|o|..] == "";
  }

  /** Replacing leaves a text without any occurrence untouched. */
  lemma {:induction false} ReplaceAbsent(s: string, o: string, n: string)
    requires |o| > 0
    requires !Contains(s, o)
    ensures ReplaceAll(s, o, n) == s
    decreases |s|
  {
    if |s| >= |o| {
      ReplaceAbsent(s[1..], o, n);
      assert s == [s[0]] + s[1..];
    }
  }

  /** A character that is neither in the text nor in the new value does not appear after replacing. */
  lemma {:induction false} ReplaceExcludes(s: string, o: string, n: string, c: char)
    requires |o| > 0
    requires c !in s && c !in n
    ensures c !in ReplaceAll(s, o, n)
    decreases |s|
  {
    if |s| >= |o| {
      if s[..|o|] == o {
        ReplaceExcludes(s[|o|..], o, n, c);
      } else {
        ReplaceExcludes(s[1..], o, n, c);
      }
    }
  }

  /** Replacing in a short text changes nothing. */
  lemma ReplaceShort(s: string, o: string, n: string)
    requires 0 < |o| && |s| < |o|
    ensures ReplaceAll(s, o, n) == s
  {
  }

  /** An old value free of `sep` never straddles a separator, so replacing works piece by piece. */
  lemma {:induction false} ReplaceAcross(a: string, sep: char, b: string, o: string, n: string)
    requires |o| > 0 && sep !in o
    ensures ReplaceAll(a + [sep] + b, o, n) == ReplaceAll(a, o, n) + [sep] + ReplaceAll(b, o, n)
    decreases |a|
  {
    var s := a + [sep] + b;
    if |s| < |o| {
      ReplaceShort(a, o, n);
      ReplaceShort(b, o, n);
    } else if |a| >= |o| && a[..|o|] == o {
      assert s[..|o|] == o;
      assert s[|o|..] == a[|o|..] + [sep] + b;
      ReplaceAcross(a[|o|..], sep, b, o, n);
    } else {
      if |a| < |o| {
        assert s[..|o|][|a|] == sep;
      } else {
        assert s[..|o|] == a[..|o|];
      }
      assert s[..|o|] != o;
      if |a| == 0 {
        ReplaceShort(a, o, n);
        assert s[1..] == b;
      } else {
        assert s[1..] == a[1..] + [sep] + b;
        ReplaceAcross(a[1..], sep, b, o, n);
        if |a| < |o| {
          ReplaceShort(a, o, n);
          ReplaceShort(a[1..], o, n);
          assert a == [a[0]] + a[1..];
        }
      }
    }
  }

  /** Replacing in each piece of a sequence. */
  function ReplaceEach(parts: seq<string>, o: string, n: string): (r: seq<string>)
    requires |o| > 0
    ensures |r| == |parts|
    ensures forall i :: 0 <= i < |parts| ==> r[i] == ReplaceAll(parts[i], o, n)
  {
    if |parts| == 0 then [] else [ReplaceAll(parts[0], o, n)] + ReplaceEach(parts[1..], o, n)
  }

  /** Replacing in a joined text equals joining the replaced pieces, when the old value has no separator. */
  lemma {:induction false} ReplaceJoin(sep: char, parts: seq<string>, o: string, n: string)
    requires |o| > 0 && sep !in o
    ensures ReplaceAll(Join(sep, parts), o, n) == Join(sep, ReplaceEach(parts, o, n))
  {
    if |parts| == 0 {
      ReplaceShort("", o, n);
    } else if |parts| >= 2 {
      ReplaceAcross(parts[0], sep, Join(sep, parts[1..]), o, n);
      ReplaceJoin(sep, parts[1..], o, n);
      assert ReplaceEach(parts, o, n)[1..] == ReplaceEach(parts[1..], o, n);
    }
  }

  // ---------------------------------------------------------------------
  // Trim

  function TrimStart(s: string): (r: string)
    ensures |r| <= |s| && r == s[|s| - |r|..]
    ensures |r| > 0 ==> !IsWhiteSpace(r[0])
    ensures AllWhiteSpace(s[..|s| - |r|])
    decreases |s|
  {
    if |s| > 0 && IsWhiteSpace(s[0]) then
      var r := TrimStart(s[1..]);
      assert s[1..][..|s| - 1 - |r|] == s[1..|s| - |r|];
      r
    else s
  }

  function TrimEnd(s: string): (r: string)
    ensures |r| <= |s| && r == s[..|r|]
    ensures |r| > 0 ==> !IsWhiteSpace(r[|r| - 1])
    ensures AllWhiteSpace(s[|r|..])
    decreases |s|
  {
    if |s| > 0 && IsWhiteSpace(s[|s| - 1]) then TrimEnd(s[..|s| - 1]) else s
  }

  /** string.Trim(): strips leading and trailing white space. */
  function Trim(s: string): string
  {
    TrimEnd(TrimStart(s))
  }

  /** No white space at either end. */
  predicate IsTrimmed(s: string)
  {
    |s| == 0 || (!IsWhiteSpace(s[0]) && !IsWhiteSpace(s[|s| - 1]))
  }

  /** Trim's result is trimmed, introduces no character, and leaves a trimmed string alone. */
  lemma TrimProperties(s: string)
    ensures IsTrimmed(Trim(s))
    ensures forall c :: c in Trim(s) ==> c in s
    ensures IsTrimmed(s) ==> Trim(s) == s
  {
    TrimEnds(s);
    TrimKeeps(s);
    if IsTrimmed(s) {
      TrimLeaves(s);
    }
  }

  lemma TrimEnds(s: string)
    ensures IsTrimmed(Trim(s))
  {
    var t := TrimStart(s);
    var r := TrimEnd(t);
    if |r| > 0 {
      assert r[0] == t[0];
    }
  }

  lemma TrimKeeps(s: string)
    ensures forall c :: c in Trim(s) ==> c in s
  {
    var t := TrimStart(s);
    SliceKeeps(s, |s| - |t|, |t|);
    SliceKeeps(t, 0, |TrimEnd(t)|);
  }

  /** A suffix and a prefix of `s` hold only characters of `s`. */
  lemma SliceKeeps(s: string, a: nat, b: nat)
    requires a <= |s| && b <= |s|
    ensures forall c :: c in s[a..] ==> c in s
    ensures forall c :: c in s[..b] ==> c in s
  {
  }

  lemma TrimLeaves(s: string)
    requires IsTrimmed(s)
    ensures Trim(s) == s
  {
    if |s| > 0 {
      var first, last := s[0], s[|s| - 1];
      assert !IsWhiteSpace(first) && !IsWhiteSpace(last);
      assert TrimStart(s) == s;
      assert TrimEnd(s) == s;
    }
  }

  // ---------------------------------------------------------------------
  // Integers

  function DigitValue(c: char): nat
    requires IsDigit(c)
  {
    (c as int) - ('0' as int)
  }

  function DigitChar(d: nat): (c: char)
    requires d < 10
    ensures IsDigit(c) && DigitValue(c) == d
  {
    (('0' as int) + d) as char
  }

  predicate AllDigits(s: string)
  {
    forall i :: 0 <= i < |s| ==> IsDigit(s[i])
  }

  /** The value of a string of decimal digits, most significant first. */
  function DigitsValue(s: string): nat
    requires AllDigits(s)
  {
    if |s| == 0 then 0 else DigitsValue(s[..|s| - 1]) * 10 + DigitValue(s[|s| - 1])
  }

  /** Int32.ToString() of a non-negative value: decimal, no leading zeros. */
  function NatToString(n: nat): (s: string)
    ensures |s| >= 1 && AllDigits(s)
    ensures |s| > 1 ==> s[0] != '0'
    decreases n
  {
    if n < 10 then [DigitChar(n)] else NatToString(n / 10) + [DigitChar(n % 10)]
  }

  lemma {:induction false} NatToStringValue(n: nat)
    ensures DigitsValue(NatToString(n)) == n
    decreases n
  {
    if n >= 10 {
      NatToStringValue(n / 10);
      var s := NatToString(n);
      assert s[..|s| - 1] == NatToString(n / 10);
    }
  }

  /** Int32.ToString(): decimal with a leading '-' for negative values. */
  function IntToString(i: int): (s: string)
    ensures '.' !in s && ',' !in s && '=' !in s && '"' !in s
    ensures |s| >= 1 && (s == "0" || s[0] != '0')
  {
    if i < 0 then "-" + NatToString(-i) else NatToString(i)
  }

  const Int32Min: int := -0x8000_0000
  const Int32Max: int := 0x7FFF_FFFF

  predicate IsInt32(i: int)
  {
    Int32Min <= i <= Int32Max
  }

  /** Unchecked Int32 arithmetic: the mathematical value wrapped into [-2^31, 2^31). */
  function Wrap32(x: int): (r: int)
    ensures IsInt32(r)
    ensures IsInt32(x) ==> r == x
  {
    (x - Int32Min) % 0x1_0000_0000 + Int32Min
  }

  /** The white space that NumberStyles.Integer allows around a number: U+0009..U+000D and U+0020. */
  predicate IsNumberWhite(c: char)
  {
    c == ' ' || ('\t' <= c <= '\r')
  }

  function StripNumberWhite(s: string): (r: string)
    ensures |r| <= |s|
    decreases |s|
  {
    if |s| > 0 && IsNumberWhite(s[0]) then StripNumberWhite(s[1..])
    else if |s| > 0 && IsNumberWhite(s[|s| - 1]) then StripNumberWhite(s[..|s| - 1])
    else s
  }

  /** int.Parse(s): optional surrounding white space, an optional sign, one or more
      decimal digits; FormatException otherwise, OverflowException outside Int32. */
  function ParseInt32(s: string): (r: Result<int>)
    ensures r.Ok? ==> IsInt32(r.value)
    ensures r.Err? ==> r.error == BadFormat || r.error == Overflow
  {
    var t := StripNumberWhite(s);
    var negative := |t| > 0 && t[0] == '-';
    var digits := if |t| > 0 && (t[0] == '-' || t[0] == '+') then t[1..] else t;
    if |digits| == 0 || !AllDigits(digits) then Err(BadFormat)
    else
      var v: int := if negative then 0 - DigitsValue(digits) else DigitsValue(digits);
      if IsInt32(v) then Ok(v) else Err(Overflow)
  }

  /** Printing an Int32 and parsing it back gives the same value. */
  lemma ParseIntToString(i: int)
    requires IsInt32(i)
    ensures ParseInt32(IntToString(i)) == Ok(i)
  {
    var m: nat := if i < 0 then -i else i;
    NatToStringValue(m);
    var d := NatToString(m);
    var s := IntToString(i);
    if i < 0 {
      assert s == "-" + d;
      assert s[1..] == d;
    } else {
      assert s == d;
    }
    assert !IsNumberWhite(s[0]) && !IsNumberWhite(s[|s| - 1]);
    assert StripNumberWhite(s) == s;
  }
}
