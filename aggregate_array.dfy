/**
 * `AggregateArray`: a contiguous array of strings that keeps a running
 * `aggregate` in step with every edit. The source declares it as a subclass
 * of `AnyContiguousArray`; here it holds its own `elements` field and repeats
 * the read-only members it inherits only where the rest of the model needs them.
 */
module AggregateArrays {
  import opened Sequences
  import opened StringAggregates

  /** The aggregate the source gives the split-off half, over `self`'s first elements. */
  function SplitOffAggregateAsWritten(elements: seq<string>, aggregate: StringAggregate, index: int): StringAggregate
    requires 0 <= index <= |elements|
  {
    if index == |elements| then FreshAggregate
    else if index == 0 then aggregate
    else FreshAggregate.AddElements(0, |elements| - index, elements)
  }

  /** The aggregate the split-off half should get: that of the elements it receives. */
  function SplitOffAggregate(elements: seq<string>, aggregate: StringAggregate, index: int): StringAggregate
    requires 0 <= index <= |elements|
  {
    if index == |elements| then FreshAggregate
    else if index == 0 then aggregate
    else FreshAggregate.AddElements(0, |elements| - index, elements[index..])
  }

  /** With a consistent aggregate, the corrected split-off aggregate counts exactly the moved elements. */
  lemma SplitOffAggregateCounts(elements: seq<string>, aggregate: StringAggregate, index: int)
    requires 0 <= index <= |elements|
    requires aggregate.characterCount == Total(elements)
    ensures SplitOffAggregate(elements, aggregate, index).characterCount == Total(elements[index..])
  {
    if index == |elements| {
      assert elements[index..] == [];
    } else if index == 0 {
      assert elements[index..] == elements;
    } else {
      assert elements[index..][0..|elements| - index] == elements[index..];
    }
  }

  /**
   * The split as written miscounts: splitting ["ab", "c"] at 1 moves "c"
   * (one character) but gives the new half a count of 2, the weight of "ab".
   */
  lemma SplitOffAggregateAsWrittenMiscounts()
    ensures var e := ["ab", "c"];
            SplitOffAggregateAsWritten(e, StringAggregate(Total(e)), 1).characterCount == 2 &&
            Total(e[1..]) == 1
  {
    var e := ["ab", "c"];
    assert e[0..1] == ["ab"];
    assert e[1..] == ["c"];
    assert Total(["ab"]) == Total([]) + 2;
    assert Total(["c"]) == Total([]) + 1;
  }

  class AggregateArray {
    var elements: seq<string>
    var aggregate: StringAggregate

    /** The aggregate counts exactly the stored elements. */
    ghost predicate Consistent()
      reads this
    {
      aggregate.characterCount == Total(elements)
    }

    /** `init()`: no elements and a fresh aggregate. */
    constructor ()
      ensures elements == [] && aggregate == FreshAggregate && Consistent()
    {
      elements := [];
      aggregate := FreshAggregate;
    }

    /** `init(_:)`: the given elements, with the aggregate computed over all of them. */
    constructor FromSequence(newElements: seq<string>)
      ensures elements == newElements && Consistent()
    {
      elements := newElements;
      aggregate := FreshAggregate.AddElements(0, |newElements|, newElements);
      assert newElements[0..|newElements|] == newElements;
    }

    /** `init(_:aggregate:)`: copies the supplied aggregate without recomputing it. */
    constructor WithAggregate(newElements: seq<string>, aggregate: StringAggregate)
      ensures elements == newElements && this.aggregate == aggregate
    {
      elements := newElements;
      this.aggregate := aggregate;
    }

    /** `init(copy:)`: copies both the elements and the aggregate. */
    constructor Copy(copy: AggregateArray)
      ensures elements == copy.elements && aggregate == copy.aggregate
      ensures copy.Consistent() ==> Consistent()
    {
      elements := copy.elements;
      aggregate := copy.aggregate;
    }

    /** Position subscript, get. */
    function Get(index: int): (x: string)
      reads this
      requires 0 <= index < |elements|
      ensures x == elements[index]
    {
      elements[index]
    }

    /**
     * Position subscript, set: the old element's contribution is removed and
     * the new one's added, so only slot `index` and the aggregate change.
     */
    method Set(index: int, newValue: string)
      requires 0 <= index < |elements|
      modifies this
      ensures elements == old(elements)[index := newValue]
      ensures aggregate.characterCount == old(aggregate.characterCount) - Weight(old(elements)[index]) + Weight(newValue)
      ensures old(Consistent()) ==> Consistent()
    {
      aggregate := aggregate.RemoveElement(index, elements);
      elements := elements[index := newValue];
      aggregate := aggregate.AddElement(index, elements);
      TotalUpdate(old(elements), index, newValue);
    }

    /** `append`: the element goes at the end and exactly its weight is added. */
    method Append(element: string)
      modifies this
      ensures elements == old(elements) + [element]
      ensures aggregate.characterCount == old(aggregate.characterCount) + Weight(element)
      ensures old(Consistent()) ==> Consistent()
    {
      elements := elements + [element];
      aggregate := aggregate.AddElement(|elements| - 1, elements);
      assert elements[..|elements| - 1] == old(elements);
    }

    /** `extend`: the elements go at the end and exactly their weights are added. */
    method Extend(newElements: seq<string>)
      modifies this
      ensures elements == old(elements) + newElements
      ensures aggregate.characterCount == old(aggregate.characterCount) + Total(newElements)
      ensures old(Consistent()) ==> Consistent()
    {
      var start := |elements|;
      elements := elements + newElements;
      aggregate := aggregate.AddElements(start, |elements|, elements);
      assert elements[start..|elements|] == newElements;
      TotalAppend(old(elements), newElements);
    }

    /** `splice(_:atIndex:)`: the new elements inserted at `i`, and their weights added. */
    method Splice(newElements: seq<string>, i: int)
      requires 0 <= i <= |elements|
      modifies this
      ensures elements == Sequences.Splice(old(elements), newElements, i)
      ensures aggregate.characterCount == old(aggregate.characterCount) + Total(newElements)
      ensures old(Consistent()) ==> Consistent()
    {
      var count := |elements|;
      elements := Sequences.Splice(elements, newElements, i);
      var newCount := |elements|;
      aggregate := aggregate.AddElements(i, i + newCount - count, elements);
      assert elements[i..i + newCount - count] == newElements;
      TotalThreeWay(elements, i, i + |newElements|);
      TotalThreeWay(old(elements), i, i);
      assert elements[..i] == old(elements)[..i];
      assert elements[i + |newElements|..] == old(elements)[i..];
    }

    /** `removeAtIndex`: returns `elements[i]`, removes it and subtracts its weight. */
    method RemoveAtIndex(i: int) returns (x: string)
      requires 0 <= i < |elements|
      modifies this
      ensures x == old(elements)[i]
      ensures elements == old(elements)[..i] + old(elements)[i + 1..]
      ensures aggregate.characterCount == old(aggregate.characterCount) - Weight(x)
      ensures old(Consistent()) ==> Consistent()
    {
      aggregate := aggregate.RemoveElement(i, elements);
      x := elements[i];
      elements := RemoveAt(elements, i);
      TotalThreeWay(old(elements), i, i + 1);
      assert old(elements)[i..i + 1] == [x];
      TotalAppend(old(elements)[..i], old(elements)[i + 1..]);
    }

    /** `removeRange`: the weights of the removed elements are subtracted. */
    method RemoveRange(lo: int, hi: int)
      requires 0 <= lo <= hi <= |elements|
      modifies this
      ensures elements == old(elements)[..lo] + old(elements)[hi..]
      ensures aggregate.characterCount == old(aggregate.characterCount) - Total(old(elements)[lo..hi])
      ensures old(Consistent()) ==> Consistent()
    {
      aggregate := aggregate.RemoveElements(lo, hi, elements);
      elements := Sequences.RemoveRange(elements, lo, hi);
      TotalThreeWay(old(elements), lo, hi);
      TotalAppend(old(elements)[..lo], old(elements)[hi..]);
    }

    /** `insert(_:atIndex:)`: the element inserted at `i` and its weight added. */
    method Insert(newElement: string, i: int)
      requires 0 <= i <= |elements|
      modifies this
      ensures elements == old(elements)[..i] + [newElement] + old(elements)[i..]
      ensures aggregate.characterCount == old(aggregate.characterCount) + Weight(newElement)
      ensures old(Consistent()) ==> Consistent()
    {
      elements := Sequences.Insert(elements, i, newElement);
      aggregate := aggregate.AddElement(i, elements);
      TotalThreeWay(elements, i, i + 1);
      assert elements[i..i + 1] == [newElement];
      assert elements[..i] == old(elements)[..i];
      assert elements[i + 1..] == old(elements)[i..];
      TotalAppend(old(elements)[..i], old(elements)[i..]);
      assert old(elements) == old(elements)[..i] + old(elements)[i..];
    }

    /** `replaceRange`: `RemoveRange` followed by `Splice` at the range's start. */
    method ReplaceRange(lo: int, hi: int, newElements: seq<string>)
      requires 0 <= lo <= hi <= |elements|
      modifies this
      ensures elements == Sequences.ReplaceRange(old(elements), lo, hi, newElements)
      ensures aggregate.characterCount ==
              old(aggregate.characterCount) - Total(old(elements)[lo..hi]) + Total(newElements)
      ensures old(Consistent()) ==> Consistent()
    {
      RemoveRange(lo, hi);
      Splice(newElements, lo);
      ReplaceIsRemoveThenSplice(old(elements), lo, hi, newElements);
    }

    /** `removeAll(keepCapacity:)`: no elements and a freshly initialised aggregate. */
    method RemoveAll(keepCapacity: bool)
      modifies this
      ensures elements == [] && aggregate == FreshAggregate && Consistent()
    {
      elements := [];
      aggregate := FreshAggregate;
    }

    /**
     * `splitAtIndex` as the source writes it: `self` keeps `elements[..index]`
     * and the returned array gets `elements[index..]`, but in the general case
     * the new array's aggregate is computed over `self`'s first `count - index`
     * elements rather than over the ones it received.
     */
    method SplitAtIndexAsWritten(index: int) returns (s: AggregateArray)
      requires 0 <= index <= |elements|
      modifies this
      ensures fresh(s)
      ensures elements == old(elements)[..index] && s.elements == old(elements)[index..]
      ensures s.aggregate == SplitOffAggregateAsWritten(old(elements), old(aggregate), index)
      ensures index == |old(elements)| ==> aggregate == old(aggregate)
      ensures index == 0 < |old(elements)| ==> aggregate == FreshAggregate
      ensures 0 < index < |old(elements)| ==>
              aggregate.characterCount == old(aggregate.characterCount) - Total(old(elements)[index..])
    {
      s := new AggregateArray();
      var count := |elements|;
      if index == count {
        return;
      } else if index == 0 {
        s.elements := elements;
        s.aggregate := aggregate;
        aggregate := FreshAggregate;
        elements := [];
        return;
      }
      s.elements := Sequences.Splice(s.elements, elements[index..count], 0);
      s.aggregate := s.aggregate.AddElements(0, count - index, elements);
      RemoveRange(index, count);
      assert old(elements)[index..count] == old(elements)[index..];
    }

    /**
     * `splitAtIndex` with the split-off half's aggregate taken over the
     * elements it receives: both halves stay consistent.
     */
    method SplitAtIndex(index: int) returns (s: AggregateArray)
      requires 0 <= index <= |elements|
      modifies this
      ensures fresh(s)
      ensures elements == old(elements)[..index] && s.elements == old(elements)[index..]
      ensures s.aggregate == SplitOffAggregate(old(elements), old(aggregate), index)
      ensures index == |old(elements)| ==> aggregate == old(aggregate)
      ensures index == 0 < |old(elements)| ==> aggregate == FreshAggregate
      ensures 0 < index < |old(elements)| ==>
              aggregate.characterCount == old(aggregate.characterCount) - Total(old(elements)[index..])
      ensures old(Consistent()) ==> Consistent() && s.Consistent()
    {
      s := new AggregateArray();
      var count := |elements|;
      if index == count {
        return;
      } else if index == 0 {
        s.elements := elements;
        s.aggregate := aggregate;
        aggregate := FreshAggregate;
        elements := [];
        return;
      }
      ghost var moved := elements[index..];
      assert elements[index..count] == moved;
      s.elements := Sequences.Splice(s.elements, elements[index..count], 0);
      assert s.elements == moved;
      s.aggregate := s.aggregate.AddElements(0, count - index, s.elements);
      assert s.elements[0..count - index] == moved;
      assert s.aggregate == SplitOffAggregate(old(elements), old(aggregate), index);
      assert s.Consistent();
      RemoveRange(index, count);
    }

    /** `split`: splits at half the count. */
    method Split() returns (s: AggregateArray)
      modifies this
      ensures fresh(s)
      ensures elements == old(elements)[..|old(elements)| / 2]
      ensures s.elements == old(elements)[|old(elements)| / 2..]
      ensures old(Consistent()) ==> Consistent() && s.Consistent()
    {
      s := SplitAtIndex(|elements| / 2);
    }
  }

  /**
   * The source's `testSplitMiddle`: eight one-character strings split into
   * 4 + 4 elements, each half counting 4 characters.
   */
  method SplitMiddleScenario() returns (leftCount: int, rightCount: int, leftChars: int, rightChars: int)
    ensures leftCount == 4 && rightCount == 4 && leftChars == 4 && rightChars == 4
  {
    var e := ["1", "2", "3", "4", "5", "6", "7", "8"];
    var b := new AggregateArray.FromSequence(e);
    var c := b.Split();
    assert b.elements == ["1", "2", "3", "4"];
    assert c.elements == ["5", "6", "7", "8"];
    TotalOfSingles(b.elements);
    TotalOfSingles(c.elements);
    leftCount, rightCount := |b.elements|, |c.elements|;
    leftChars, rightChars := b.aggregate.characterCount, c.aggregate.characterCount;
  }
}
