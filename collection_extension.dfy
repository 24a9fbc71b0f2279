/** The in-place append on the observable collections the user interface binds to. */
module CollectionExtension {

  /** An ObservableCollection: its elements, in order. */
  class Collection<T> {
    var elements: seq<T>

    constructor ()
      ensures elements == []
    {
      elements := [];
    }

    /** Add: the item becomes the last element. */
    method Add(item: T)
      modifies this
      ensures elements == old(elements) + [item]
    {
      elements := elements + [item];
    }
  }

  /** AddRange: every item of the source is added to the target, one after the other.
      The target keeps its elements as a prefix and grows by the source, in order. */
  method AddRange<T>(target: Collection<T>, source: seq<T>)
    modifies target
    ensures target.elements == old(target.elements) + source
    ensures |target.elements| == old(|target.elements|) + |source|
    ensures target.elements[..old(|target.elements|)] == old(target.elements)
    ensures target.elements[old(|target.elements|)..] == source
  {
    ghost var before := target.elements;
    var i := 0;
    while i < |source|
      invariant 0 <= i <= |source|
      invariant target.elements == before + source[..i]
    {
      target.Add(source[i]);
      assert source[..i + 1] == source[..i] + [source[i]];
      i := i + 1;
    }
    assert source[..i] == source;
  }
}
