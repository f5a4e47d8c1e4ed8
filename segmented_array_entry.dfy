/**
 * A cursor into one segment of a segmented array: the segment itself, its
 * position in the segment list and a local index inside it.
 */
module SegmentedArrayEntries {
  import opened StringAggregates
  import opened AggregateArrays

  datatype SegmentedArrayEntry = SegmentedArrayEntry(segment: AggregateArray, segmentIndex: int, index: int)
  {
    /** The segment's own aggregate, which covers exactly its elements when the segment is consistent. */
    function Aggregate(): (a: StringAggregate)
      reads segment
      ensures a == segment.aggregate
      ensures segment.Consistent() ==> a.characterCount == Total(segment.elements)
    {
      segment.aggregate
    }

    /** The other elements stored next to this one: the segment object itself, shared, not a copy. */
    function Siblings(): (s: AggregateArray)
      ensures s == segment
    {
      segment
    }

    /** `element`, get: the element under the cursor. */
    function Element(): (x: string)
      reads segment
      requires 0 <= index < |segment.elements|
      ensures x == segment.elements[index]
    {
      segment.elements[index]
    }

    /**
     * `element`, set: goes through the segment's aggregate-maintaining
     * subscript, so only slot `index` and the segment's aggregate change.
     */
    method SetElement(newValue: string)
      requires 0 <= index < |segment.elements|
      modifies segment
      ensures segment.elements == old(segment.elements)[index := newValue]
      ensures segment.aggregate.characterCount ==
              old(segment.aggregate.characterCount) - Weight(old(segment.elements)[index]) + Weight(newValue)
      ensures old(segment.Consistent()) ==> segment.Consistent()
    {
      segment.Set(index, newValue);
    }
  }
}
