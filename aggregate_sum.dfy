/**
 * Generic summation: a left fold with `+` starting from the type's zero.
 * Integers are unbounded here (see README).
 */
module AggregateSum {
  /** `zero()` of every integer type. */
  const Zero: int := 0

  /** The sum of `xs`, folded from the left. */
  function FoldSum(xs: seq<int>): int
  {
    if |xs| == 0 then Zero else FoldSum(xs[..|xs| - 1]) + xs[|xs| - 1]
  }

  /** `xs` mapped through `block`, element by element. */
  function Mapped<T>(xs: seq<T>, block: T -> int): (r: seq<int>)
    ensures |r| == |xs| && forall i :: 0 <= i < |xs| ==> r[i] == block(xs[i])
  {
    seq(|xs|, i requires 0 <= i < |xs| => block(xs[i]))
  }

  /** Summing a concatenation sums the parts. */
  lemma {:induction false} FoldSumAppend(a: seq<int>, b: seq<int>)
    ensures FoldSum(a + b) == FoldSum(a) + FoldSum(b)
    decreases |b|
  {
    if |b| == 0 {
      assert a + b == a;
    } else {
      var b' := b[..|b| - 1];
      assert (a + b)[..|a + b| - 1] == a + b';
      FoldSumAppend(a, b');
    }
  }

  /** `sum(elements)`: the loop computes the left fold. */
  method Sum(elements: seq<int>) returns (s: int)
    ensures s == FoldSum(elements)
  {
    s := Zero;
    var n := 0;
    while n < |elements|
      invariant 0 <= n <= |elements|
      invariant s == FoldSum(elements[..n])
    {
      assert elements[..n + 1][..n] == elements[..n];
      s := s + elements[n];
      n := n + 1;
    }
    assert elements[..n] == elements;
  }

  /** `sum(elements, block)`: the sum of the elements mapped through `block`. */
  method SumMapped<T>(elements: seq<T>, block: T -> int) returns (s: int)
    ensures s == FoldSum(Mapped(elements, block))
  {
    s := Zero;
    var n := 0;
    while n < |elements|
      invariant 0 <= n <= |elements|
      invariant s == FoldSum(Mapped(elements[..n], block))
    {
      assert elements[..n + 1] == elements[..n] + [elements[n]];
      assert Mapped(elements[..n + 1], block) == Mapped(elements[..n], block) + [block(elements[n])];
      FoldSumAppend(Mapped(elements[..n], block), [block(elements[n])]);
      s := s + block(elements[n]);
      n := n + 1;
    }
    assert elements[..n] == elements;
  }
}
