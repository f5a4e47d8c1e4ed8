/**
 * The aggregate the tests instantiate the aggregate arrays with
 * (`StringAggregate`, ExtraDataStructuresTests/SegmentedArrayTests.swift):
 * a running count of the characters of the strings in an array. The four
 * protocol operations of `AggregateType` take an index or a range into the
 * array they read, exactly as the array classes pass them.
 */
module StringAggregates {

  /** What one string contributes to the count: its length in Unicode scalars (the tests count grapheme clusters). */
  function Weight(s: string): nat { |s| }

  /** The characters of all the strings, summed left to right. */
  function Total(xs: seq<string>): nat
  {
    if |xs| == 0 then 0 else Total(xs[..|xs| - 1]) + Weight(xs[|xs| - 1])
  }

  lemma {:induction false} TotalAppend(a: seq<string>, b: seq<string>)
    ensures Total(a + b) == Total(a) + Total(b)
  {
    if |b| == 0 {
      assert a + b == a;
    } else {
      TotalAppend(a, b[..|b| - 1]);
      assert (a + b)[..|a + b| - 1] == a + b[..|b| - 1];
    }
  }

  /** Cutting a sequence at `lo` and `hi` splits its total into three parts. */
  lemma TotalThreeWay(s: seq<string>, lo: int, hi: int)
    requires 0 <= lo <= hi <= |s|
    ensures Total(s) == Total(s[..lo]) + Total(s[lo..hi]) + Total(s[hi..])
  {
    ThreeWaySplit(s, lo, hi);
    TotalAppend(s[..hi], s[hi..]);
    TotalAppend(s[..lo], s[lo..hi]);
  }

  /** The pieces cut at `lo` and `hi` put back together. */
  lemma ThreeWaySplit<T>(s: seq<T>, lo: int, hi: int)
    requires 0 <= lo <= hi <= |s|
    ensures s[..hi] + s[hi..] == s && s[..lo] + s[lo..hi] == s[..hi]
  {
  }

  /** Replacing one string changes the total by the difference of the two weights. */
  lemma TotalUpdate(s: seq<string>, i: int, x: string)
    requires 0 <= i < |s|
    ensures Total(s[i := x]) == Total(s) - Weight(s[i]) + Weight(x)
  {
    TotalThreeWay(s, i, i + 1);
    TotalThreeWay(s[i := x], i, i + 1);
    assert s[i := x][..i] == s[..i];
    assert s[i := x][i + 1..] == s[i + 1..];
    assert s[i..i + 1] == [s[i]];
    assert s[i := x][i..i + 1] == [x];
  }

  /** Strings of one character each contribute one apiece. */
  lemma {:induction false} TotalOfSingles(xs: seq<string>)
    requires forall k :: 0 <= k < |xs| ==> |xs[k]| == 1
    ensures Total(xs) == |xs|
  {
    if |xs| > 0 {
      TotalOfSingles(xs[..|xs| - 1]);
    }
  }

  /** The running character count of the tests' `StringAggregate`. */
  datatype StringAggregate = StringAggregate(characterCount: int)
  {
    /** Adds the weight of `inArray[element]`; removing the same element undoes it. */
    function AddElement(element: int, inArray: seq<string>): (r: StringAggregate)
      requires 0 <= element < |inArray|
      ensures r.characterCount >= characterCount && r.RemoveElement(element, inArray) == this
    {
      StringAggregate(characterCount + Weight(inArray[element]))
    }

    /** Adds the weights of `inArray[lo..<hi]`; removing the same range undoes it. */
    function AddElements(lo: int, hi: int, inArray: seq<string>): (r: StringAggregate)
      requires 0 <= lo <= hi <= |inArray|
      ensures r.characterCount >= characterCount && r.RemoveElements(lo, hi, inArray) == this
    {
      StringAggregate(characterCount + Total(inArray[lo..hi]))
    }

    /** Subtracts the weight of `fromArray[element]`, so the count never grows. */
    function RemoveElement(element: int, fromArray: seq<string>): (r: StringAggregate)
      requires 0 <= element < |fromArray|
      ensures r.characterCount <= characterCount
    {
      StringAggregate(characterCount - Weight(fromArray[element]))
    }

    /** Subtracts the weights of `fromArray[lo..<hi]`, so the count never grows. */
    function RemoveElements(lo: int, hi: int, fromArray: seq<string>): (r: StringAggregate)
      requires 0 <= lo <= hi <= |fromArray|
      ensures r.characterCount <= characterCount
    {
      StringAggregate(characterCount - Total(fromArray[lo..hi]))
    }

    /**
     * The tests' `addElements` and `removeElements` loop over the range one
     * element at a time: a range is its shorter prefix and then its last
     * element, for adding and for removing alike.
     */
    lemma OneByOne(lo: int, hi: int, a: seq<string>)
      requires 0 <= lo < hi <= |a|
      ensures AddElements(lo, hi, a) == AddElements(lo, hi - 1, a).AddElement(hi - 1, a)
      ensures RemoveElements(lo, hi, a) == RemoveElements(lo, hi - 1, a).RemoveElement(hi - 1, a)
    {
      assert a[lo..hi][..hi - 1 - lo] == a[lo..hi - 1];
    }
  }

  /** `Aggregate()`: a fresh aggregate, with nothing counted. */
  const FreshAggregate := StringAggregate(0)
}
