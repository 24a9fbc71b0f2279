/** Searching a sequence for the first or last element with a property: the
    shape of every `foreach … break` and every "last assignment wins" scan. */
module Seqs {

  /** The index of the first element satisfying `p`, or -1. */
  function FirstIndex<T>(s: seq<T>, p: T -> bool): (k: int)
    ensures -1 <= k < |s|
    ensures k >= 0 ==> p(s[k]) && forall j :: 0 <= j < k ==> !p(s[j])
    ensures k < 0 ==> forall j :: 0 <= j < |s| ==> !p(s[j])
    decreases |s|
  {
    if |s| == 0 then -1
    else if p(s[0]) then 0
    else
      var k := FirstIndex(s[1..], p);
      assert forall j :: 1 <= j < |s| ==> s[j] == s[1..][j - 1];
      if k < 0 then -1 else k + 1
  }

  /** The index of the last element satisfying `p`, or -1. */
  function LastIndex<T>(s: seq<T>, p: T -> bool): (k: int)
    ensures -1 <= k < |s|
    ensures k >= 0 ==> p(s[k]) && forall j :: k < j < |s| ==> !p(s[j])
    ensures k < 0 ==> forall j :: 0 <= j < |s| ==> !p(s[j])
    decreases |s|
  {
    if |s| == 0 then -1
    else if p(s[|s| - 1]) then |s| - 1
    else
      var k := LastIndex(s[..|s| - 1], p);
      assert forall j :: 0 <= j < |s| - 1 ==> s[j] == s[..|s| - 1][j];
      k
  }

  /** The first `n` elements retargeted by `f`, the rest kept. */
  function MapPrefix<T>(s: seq<T>, n: int, f: T -> T): (r: seq<T>)
    ensures |r| == |s|
    ensures forall j :: 0 <= j < |s| ==> r[j] == if j < n then f(s[j]) else s[j]
  {
    seq(|s|, j requires 0 <= j < |s| => if j < n then f(s[j]) else s[j])
  }

  /** Two sequences agreeing on `p` elementwise have the same last index of `p`. */
  lemma {:induction false} LastIndexSame<T, U>(s: seq<T>, t: seq<U>, p: T -> bool, q: U -> bool)
    requires |s| == |t|
    requires forall j :: 0 <= j < |s| ==> p(s[j]) == q(t[j])
    ensures LastIndex(s, p) == LastIndex(t, q)
  {
    if |s| > 0 {
      var s' := s[..|s| - 1];
      var t' := t[..|t| - 1];
      assert forall j :: 0 <= j < |s'| ==> s'[j] == s[j] && t'[j] == t[j];
      LastIndexSame(s', t', p, q);
    }
  }

  /** The parts one after the other. */
  function Concat<T>(parts: seq<seq<T>>): seq<T>
  {
    if |parts| == 0 then [] else Concat(parts[..|parts| - 1]) + parts[|parts| - 1]
  }

  /** One more part follows the parts before it. */
  lemma ConcatSnoc<T>(parts: seq<seq<T>>, i: nat)
    requires i < |parts|
    ensures Concat(parts[..i + 1]) == Concat(parts[..i]) + parts[i]
  {
    assert parts[..i + 1][..i] == parts[..i];
  }

  /** An element is in the concatenation exactly when it is in one of the parts. */
  lemma {:induction false} ConcatHas<T>(parts: seq<seq<T>>, x: T)
    ensures x in Concat(parts) <==> exists k :: 0 <= k < |parts| && x in parts[k]
    decreases |parts|
  {
    if |parts| > 0 {
      var n := |parts| - 1;
      var front := parts[..n];
      ConcatHas(front, x);
      if x in Concat(front) {
        var k :| 0 <= k < |front| && x in front[k];
        assert parts[k] == front[k];
      } else if x !in parts[n] {
        forall k | 0 <= k < |parts|
          ensures x !in parts[k]
        {
          if k < n {
            assert parts[k] == front[k];
          }
        }
      }
    }
  }

  /** The concatenation of the first parts is a prefix of the concatenation of all of them. */
  lemma {:induction false} ConcatPrefix<T>(parts: seq<seq<T>>, i: nat)
    requires i <= |parts|
    ensures Concat(parts[..i]) <= Concat(parts)
    decreases |parts|
  {
    if i < |parts| {
      var n := |parts| - 1;
      assert parts[..n][..i] == parts[..i];
      ConcatPrefix(parts[..n], i);
    } else {
      assert parts[..i] == parts;
    }
  }

  /** An element of two different parts occurs at least twice in the concatenation. */
  lemma {:induction false} ConcatRepeat<T>(parts: seq<seq<T>>, x: T, i: nat, j: nat)
    requires i < j < |parts| && x in parts[i] && x in parts[j]
    ensures multiset(Concat(parts))[x] >= 2
    decreases |parts|
  {
    var n := |parts| - 1;
    var front := parts[..n];
    assert front[i] == parts[i];
    assert multiset(Concat(parts)) == multiset(Concat(front)) + multiset(parts[n]);
    if j == n {
      ConcatHas(front, x);
    } else {
      assert front[j] == parts[j];
      ConcatRepeat(front, x, i, j);
    }
  }

  /** Appending one more element of `s` extends what has been appended of it so far. */
  lemma AppendPrefixSnoc<T>(a: seq<T>, s: seq<T>, j: nat)
    requires j < |s|
    ensures a + s[..j + 1] == (a + s[..j]) + [s[j]]
  {
    assert s[..j + 1] == s[..j] + [s[j]];
  }

  /** One more element mapped: the prefix grows by position `i`, which is unchanged when `f`
      leaves that element alone. */
  lemma MapPrefixStep<T>(s: seq<T>, i: nat, f: T -> T)
    requires i < |s|
    ensures MapPrefix(s, i + 1, f) == MapPrefix(s, i, f)[i := f(s[i])]
    ensures f(s[i]) == s[i] ==> MapPrefix(s, i + 1, f) == MapPrefix(s, i, f)
  {
    var a, b := MapPrefix(s, i + 1, f), MapPrefix(s, i, f);
    assert forall j :: 0 <= j < |s| ==> a[j] == b[i := f(s[i])][j];
    if f(s[i]) == s[i] {
      assert forall j :: 0 <= j < |s| ==> a[j] == b[j];
    }
  }

  /** Updating a key twice keeps only the second value. */
  lemma UpdateTwice<K, V>(m: map<K, V>, k: K, a: V, b: V)
    ensures m[k := a][k := b] == m[k := b]
  {
  }
}
