/** Option and Result values, and the exceptions the modelled code can raise.
    A .NET `null` is `None`; a thrown exception is `Err(e)`. */
module Wrappers {

  datatype Option<+T> = None | Some(value: T)

  /** The exceptions the core raises or lets escape from the .NET library. */
  datatype Exception =
    | NullReference                  // a member access on a missing attribute or child
    | IndexOutOfRange                // an array index past the end of a Split result
    | ArgumentOutOfRange             // Substring with a negative length
    | ArgumentNull                   // a library call given a null argument
    | EmptyOldValue                  // String.Replace with an empty old value
    | BadFormat                      // int.Parse on text that is not an integer
    | Overflow                       // int.Parse on an integer outside Int32
    | FileNotFound(file: string)     // a file that does not exist was opened
    | DirectoryNotFound(dir: string) // a directory that does not exist was enumerated
    | XmlError(xmlFile: string)      // the file is not well-formed XML
    | Unreadable(textFile: string)   // the file could not be read as lines of text
    | Failed(message: string)        // `new Exception(message)` raised by the core itself

  datatype Result<+T> = Ok(value: T) | Err(error: Exception) {
    predicate IsFailure() { Err? }
    function PropagateFailure<U>(): Result<U>
      requires Err?
    {
      Err(error)
    }
    function Extract(): T
      requires Ok?
    {
      value
    }
  }

  /** The outcome of `f` on each element in turn: all the values, or the first exception. */
  function MapResult<A, B>(xs: seq<A>, f: A -> Result<B>): Result<seq<B>>
  {
    if |xs| == 0 then Ok([])
    else
      var prev :- MapResult(xs[..|xs| - 1], f);
      var v :- f(xs[|xs| - 1]);
      Ok(prev + [v])
  }

  /** MapResult succeeds exactly when `f` succeeds on every element, and then holds each
      element's value at its position. */
  lemma {:induction false} MapResultAre<A, B>(xs: seq<A>, f: A -> Result<B>)
    ensures MapResult(xs, f).Ok? <==> forall x :: x in xs ==> f(x).Ok?
    ensures MapResult(xs, f).Ok? ==>
      |MapResult(xs, f).value| == |xs| && forall j :: 0 <= j < |xs| ==> f(xs[j]) == Ok(MapResult(xs, f).value[j])
    decreases |xs|
  {
    if |xs| > 0 {
      var n := |xs| - 1;
      MapResultAre(xs[..n], f);
      assert forall x :: x in xs <==> x in xs[..n] || x == xs[n];
    }
  }

  /** An element on which `f` fails, after elements on which it succeeds, gives MapResult
      that exception. */
  lemma {:induction false} MapResultStop<A, B>(xs: seq<A>, f: A -> Result<B>, i: nat)
    requires i < |xs| && MapResult(xs[..i], f).Ok? && f(xs[i]).Err?
    ensures MapResult(xs, f) == Err(f(xs[i]).error)
    decreases |xs|
  {
    var n := |xs| - 1;
    if i == n {
      assert xs[..n] == xs[..i];
    } else {
      assert xs[..n][..i] == xs[..i];
      MapResultStop(xs[..n], f, i);
    }
  }

  /** MapResult over two sequences one after the other: the values of the first, then those
      of the second, unless one of them fails first. */
  lemma {:induction false} MapResultAppend<A, B>(xs: seq<A>, ys: seq<A>, f: A -> Result<B>)
    requires MapResult(xs, f).Ok?
    ensures MapResult(xs + ys, f) ==
      if MapResult(ys, f).Err? then Err(MapResult(ys, f).error)
      else Ok(MapResult(xs, f).value + MapResult(ys, f).value)
    decreases |ys|
  {
    if |ys| == 0 {
      assert xs + ys == xs;
      assert MapResult(ys, f) == Ok([]);
      assert MapResult(xs, f).value + [] == MapResult(xs, f).value;
    } else {
      var n := |ys| - 1;
      var zs := xs + ys;
      assert zs[..|zs| - 1] == xs + ys[..n];
      assert zs[|zs| - 1] == ys[n];
      MapResultAppend(xs, ys[..n], f);
      if MapResult(ys[..n], f).Ok? && f(ys[n]).Ok? {
        assert MapResult(ys, f).value == MapResult(ys[..n], f).value + [f(ys[n]).value];
        var u, v, w := MapResult(xs, f).value, MapResult(ys[..n], f).value, f(ys[n]).value;
        assert MapResult(zs, f) == Ok(u + v + [w]);
        assert u + v + [w] == u + (v + [w]);
      }
    }
  }

  /** Once MapResult fails on a prefix, it fails the same way on the whole sequence. */
  lemma {:induction false} MapResultPrefixStop<A, B>(xs: seq<A>, f: A -> Result<B>, m: nat)
    requires m <= |xs| && MapResult(xs[..m], f).Err?
    ensures MapResult(xs, f) == MapResult(xs[..m], f)
    decreases |xs|
  {
    if m == |xs| {
      assert xs[..m] == xs;
    } else {
      var n := |xs| - 1;
      assert xs[..n][..m] == xs[..m];
      MapResultPrefixStop(xs[..n], f, m);
    }
  }

  /** The values `f` gives for the elements, in order, skipping those it gives None for;
      the first exception escapes. */
  function CollectSome<A, B>(xs: seq<A>, f: A -> Result<Option<B>>): Result<seq<B>>
  {
    if |xs| == 0 then Ok([])
    else
      var prev :- CollectSome(xs[..|xs| - 1], f);
      var v :- f(xs[|xs| - 1]);
      Ok(prev + if v.Some? then [v.value] else [])
  }

  /** CollectSome succeeds exactly when `f` succeeds on every element, and then holds exactly
      the values `f` gives. */
  lemma {:induction false} CollectSomeAre<A, B>(xs: seq<A>, f: A -> Result<Option<B>>)
    ensures CollectSome(xs, f).Ok? <==> forall x :: x in xs ==> f(x).Ok?
    ensures CollectSome(xs, f).Ok? ==>
      forall y :: y in CollectSome(xs, f).value <==> exists x :: x in xs && f(x) == Ok(Some(y))
    decreases |xs|
  {
    if |xs| > 0 {
      var n := |xs| - 1;
      CollectSomeAre(xs[..n], f);
      assert forall x :: x in xs <==> x in xs[..n] || x == xs[n];
    }
  }

  /** One more element extends what CollectSome has collected so far. */
  lemma CollectSomeSnoc<A, B>(xs: seq<A>, f: A -> Result<Option<B>>, i: nat)
    requires i < |xs| && CollectSome(xs[..i], f).Ok?
    ensures CollectSome(xs[..i + 1], f) ==
      if f(xs[i]).Err? then Err(f(xs[i]).error)
      else Ok(CollectSome(xs[..i], f).value + if f(xs[i]).value.Some? then [f(xs[i]).value.value] else [])
  {
    assert xs[..i + 1][..i] == xs[..i];
  }

  /** Once CollectSome fails on a prefix, it fails the same way on the whole sequence. */
  lemma {:induction false} CollectSomeStop<A, B>(xs: seq<A>, f: A -> Result<Option<B>>, i: nat)
    requires i <= |xs| && CollectSome(xs[..i], f).Err?
    ensures CollectSome(xs, f) == CollectSome(xs[..i], f)
    decreases |xs|
  {
    if i == |xs| {
      assert xs[..i] == xs;
    } else {
      var n := |xs| - 1;
      assert xs[..n][..i] == xs[..i];
      CollectSomeStop(xs[..n], f, i);
    }
  }

  /** The state a step-by-step operation reached, and the exception that stopped it, if any. */
  datatype Partial<+T> = Partial(value: T, error: Option<Exception>)

  /** The Message of each exception. Library messages are those of the .NET
      runtime; the core's own messages are carried verbatim. */
  function Message(e: Exception): string
  {
    match e
    case NullReference => "Object reference not set to an instance of an object."
    case IndexOutOfRange => "Index was outside the bounds of the array."
    case ArgumentOutOfRange => "Length cannot be less than zero."
    case ArgumentNull => "Value cannot be null."
    case EmptyOldValue => "String cannot be of zero length."
    case BadFormat => "Input string was not in a correct format."
    case Overflow => "Value was either too large or too small for an Int32."
    case FileNotFound(f) => "Could not find file '" + f + "'."
    case DirectoryNotFound(d) => "Could not find a part of the path '" + d + "'."
    case XmlError(f) => "The file '" + f + "' is not well-formed XML."
    case Unreadable(f) => "The file '" + f + "' could not be read."
    case Failed(m) => m
  }

  /** ex.Message of a caught exception, or no error. */
  function ErrorText(e: Option<Exception>): (r: Option<string>)
    ensures r.Some? <==> e.Some?
    ensures e.Some? ==> r.value == Message(e.value)
  {
    if e.Some? then Some(Message(e.value)) else None
  }
}
