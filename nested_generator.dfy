/**
 * A generator that flattens a sequence of segments: it yields the elements
 * of the first segment in order, then those of the next one, and so on,
 * skipping empty segments.
 */
module NestedSequenceGenerators {
  import opened Wrappers
  import opened Sequences

  class NestedSequenceGenerator<T> {
    /** The segments not yet started. */
    var segments: seq<seq<T>>
    /** The current segment; `None` once the segments are exhausted. */
    var segment: Option<seq<T>>
    /** What is left of the current segment. */
    var elements: seq<T>

    /** Everything the generator has still to yield, in order. */
    ghost function Remaining(): seq<T>
      reads this
    {
      if segment.None? then [] else elements + Concat(segments)
    }

    /** `init(generator:)`: primes the first segment, if there is one. */
    constructor (generator: seq<seq<T>>)
      ensures Remaining() == Concat(generator)
      ensures segment.None? <==> generator == []
    {
      if |generator| == 0 {
        segments := generator;
        segment := None;
        elements := [];
      } else {
        segments := generator[1..];
        segment := Some(generator[0]);
        elements := generator[0];
        ConcatFirst(generator);
      }
    }

    /**
     * `next()`: the first element still to come, or `None` when there is
     * none, in which case nothing changes and later calls return `None` too.
     * Each pass of the loop either returns or consumes one segment.
     */
    method Next() returns (r: Option<T>)
      modifies this
      ensures old(Remaining()) == [] ==> r == None && Remaining() == []
      ensures old(Remaining()) != [] ==> r == Some(old(Remaining())[0]) && Remaining() == old(Remaining())[1..]
    {
      while true
        invariant Remaining() == old(Remaining())
        decreases |segments| + (if segment.None? then 0 else 1)
      {
        if segment.None? {
          return None;
        }
        if |elements| > 0 {
          r := Some(elements[0]);
          elements := elements[1..];
          return;
        }
        if |segments| == 0 {
          segment := None;
        } else {
          ConcatFirst(segments);
          segment := Some(segments[0]);
          elements := segments[0];
          segments := segments[1..];
        }
      }
    }
  }

  /** Calls `next()` until it returns `None`; what it yields is the concatenation of the segments. */
  method Drain<T>(container: seq<seq<T>>) returns (yielded: seq<T>)
    ensures yielded == Concat(container)
  {
    var g := new NestedSequenceGenerator(container);
    yielded := [];
    while true
      invariant yielded + g.Remaining() == Concat(container)
      decreases |g.Remaining()|
    {
      var x := g.Next();
      if x.None? {
        break;
      }
      yielded := yielded + [x.value];
    }
  }
}
