/**
 * `AnyContiguousArray`: a class wrapping a contiguous sequence of elements
 * and forwarding every collection operation to it.
 */
module ContiguousArrays {
  import opened Sequences

  class AnyContiguousArray<T> {
    var elements: seq<T>

    /** `init()`: no elements. */
    constructor ()
      ensures elements == []
    {
      elements := [];
    }

    /** `init(_:)`: the given elements, in order. */
    constructor FromSequence(newElements: seq<T>)
      ensures elements == newElements
    {
      elements := newElements;
    }

    /** `count`: the number of elements. */
    function Count(): (n: nat)
      reads this
      ensures n == |elements|
    {
      |elements|
    }

    /** `startIndex`: positions start at 0, so it is a valid position unless the array is empty. */
    function StartIndex(): (i: int)
      ensures i == 0
    {
      0
    }

    /** `isEmpty`: true exactly when the count is zero. */
    function IsEmpty(): (r: bool)
      reads this
      ensures r <==> Count() == 0
    {
      |elements| == 0
    }

    /** `endIndex`: one past the last valid position, which is the count. */
    function EndIndex(): (r: int)
      reads this
      ensures r == Count() && r >= StartIndex()
      ensures forall i :: StartIndex() <= i < r ==> Get(i) == elements[i]
    {
      |elements|
    }

    /** Position subscript, get. */
    function Get(index: int): (x: T)
      reads this
      requires 0 <= index < |elements|
      ensures x == elements[index]
    {
      elements[index]
    }

    /** Position subscript, set: only slot `index` changes. */
    method Set(index: int, newValue: T)
      requires 0 <= index < |elements|
      modifies this
      ensures |elements| == |old(elements)| && Get(index) == newValue
      ensures forall k :: 0 <= k < |elements| && k != index ==> elements[k] == old(elements)[k]
    {
      elements := elements[index := newValue];
    }

    /** Range subscript, get: the elements of `lo..<hi`, in order. */
    function GetRange(lo: int, hi: int): (r: seq<T>)
      reads this
      requires 0 <= lo <= hi <= |elements|
      ensures |r| == hi - lo
      ensures forall k :: 0 <= k < |r| ==> r[k] == Get(lo + k)
    {
      elements[lo..hi]
    }

    /** Range subscript, set: delegates to `ReplaceRange`. */
    method SetRange(lo: int, hi: int, newValue: seq<T>)
      requires 0 <= lo <= hi <= |elements|
      modifies this
      ensures elements == Sequences.ReplaceRange(old(elements), lo, hi, newValue)
    {
      ReplaceRange(lo, hi, newValue);
    }

    /** `append`: one element added at the end; nothing earlier changes. */
    method Append(x: T)
      modifies this
      ensures elements == old(elements) + [x]
    {
      elements := elements + [x];
    }

    /** `extend`: the new elements added at the end, in order. */
    method Extend(newElements: seq<T>)
      modifies this
      ensures elements == old(elements) + newElements
    {
      elements := elements + newElements;
    }

    /** `splice(_:atIndex:)`: the new elements inserted before position `i`. */
    method Splice(newElements: seq<T>, i: int)
      requires 0 <= i <= |elements|
      modifies this
      ensures elements == Sequences.Splice(old(elements), newElements, i)
    {
      elements := Sequences.Splice(elements, newElements, i);
    }

    /** `insert(_:atIndex:)`. */
    method Insert(newElement: T, i: int)
      requires 0 <= i <= |elements|
      modifies this
      ensures elements == old(elements)[..i] + [newElement] + old(elements)[i..]
    {
      elements := Sequences.Insert(elements, i, newElement);
    }

    /** `removeAtIndex`: returns the element that was at `i` and removes it. */
    method RemoveAtIndex(i: int) returns (x: T)
      requires 0 <= i < |elements|
      modifies this
      ensures x == old(elements)[i]
      ensures elements == old(elements)[..i] + old(elements)[i + 1..]
    {
      x := elements[i];
      elements := RemoveAt(elements, i);
    }

    /** `removeRange`. */
    method RemoveRange(lo: int, hi: int)
      requires 0 <= lo <= hi <= |elements|
      modifies this
      ensures elements == old(elements)[..lo] + old(elements)[hi..]
    {
      elements := Sequences.RemoveRange(elements, lo, hi);
    }

    /** `replaceRange`. */
    method ReplaceRange(lo: int, hi: int, newElements: seq<T>)
      requires 0 <= lo <= hi <= |elements|
      modifies this
      ensures elements == Sequences.ReplaceRange(old(elements), lo, hi, newElements)
    {
      elements := Sequences.ReplaceRange(elements, lo, hi, newElements);
    }

    /** `removeAll(keepCapacity:)`: the capacity hint has no effect on the contents. */
    method RemoveAll(keepCapacity: bool)
      modifies this
      ensures elements == []
    {
      elements := [];
    }
  }
}
