/**
 * `Array.moveFromIndex(_:to:)`: the element at `from` is inserted at `to`
 * and the original copy removed, so that `to` names the landing slot when
 * moving backwards and the slot just past it when moving forwards.
 */
module ArrayMove {
  import opened Sequences

  /**
   * The array after the move, by slicing: moving forwards the elements
   * strictly between `from` and `to` slide left and the element lands at
   * `to - 1`; moving backwards the elements from `to` up to `from` slide
   * right and the element lands at `to`. Nothing is lost or duplicated.
   * Equal indices leave the array alone before any index is used, so they
   * need not be in range.
   */
  function Moved<T>(a: seq<T>, from: int, to: int): (r: seq<T>)
    requires from == to || (0 <= from < |a| && 0 <= to <= |a|)
    ensures |r| == |a| && multiset(r) == multiset(a)
    ensures from == to ==> r == a
  {
    if from == to then
      a
    else if from < to then
      assert a == a[..from] + [a[from]] + a[from + 1..to] + a[to..];
      a[..from] + a[from + 1..to] + [a[from]] + a[to..]
    else
      assert a == a[..to] + a[to..from] + [a[from]] + a[from + 1..];
      a[..to] + [a[from]] + a[to..from] + a[from + 1..]
  }

  /**
   * Moving forwards: the element lands at `to - 1`, the ones after it up to
   * `to` shift left by one, and the rest stay where they were.
   */
  lemma MovedForward<T>(a: seq<T>, from: int, to: int)
    requires 0 <= from < to <= |a|
    ensures var r := Moved(a, from, to);
            && r[to - 1] == a[from]
            && (forall k :: from <= k < to - 1 ==> r[k] == a[k + 1])
            && (forall k :: 0 <= k < from ==> r[k] == a[k])
            && (forall k :: to <= k < |a| ==> r[k] == a[k])
  {
    var r := Moved(a, from, to);
    assert r[..from] == a[..from];
    assert r[from..to - 1] == a[from + 1..to];
    assert r[to..] == a[to..];
  }

  /**
   * Moving backwards: the element lands at `to`, the ones from `to` up to
   * `from` shift right by one, and the rest stay where they were.
   */
  lemma MovedBackward<T>(a: seq<T>, from: int, to: int)
    requires 0 <= to < from < |a|
    ensures var r := Moved(a, from, to);
            && r[to] == a[from]
            && (forall k :: to < k <= from ==> r[k] == a[k - 1])
            && (forall k :: 0 <= k < to ==> r[k] == a[k])
            && (forall k :: from < k < |a| ==> r[k] == a[k])
  {
    var r := Moved(a, from, to);
    assert r[..to] == a[..to];
    assert r[to + 1..from + 1] == a[to..from];
    assert r[from + 1..] == a[from + 1..];
  }

  /**
   * The source's two steps, insert at `to` and then remove the original
   * (at `from`, or at `from + 1` when the insert landed before it), give
   * `Moved`.
   */
  method MoveFromIndex<T>(a: seq<T>, from: int, to: int) returns (r: seq<T>)
    requires from == to || (0 <= from < |a| && 0 <= to <= |a|)
    ensures r == Moved(a, from, to)
  {
    if from == to {
      return a;
    }
    var fromData := a[from];
    if from < to {
      r := Insert(a, to, fromData);
      r := RemoveAt(r, from);
      assert r == a[..from] + a[from + 1..to] + [a[from]] + a[to..];
    } else {
      r := Insert(a, to, fromData);
      r := RemoveAt(r, from + 1);
      assert r == a[..to] + [a[from]] + a[to..from] + a[from + 1..];
    }
  }

  /** Moving an element forwards and then back from its landing slot restores the array. */
  lemma MoveBack<T>(a: seq<T>, from: int, to: int)
    requires 0 <= from < to <= |a|
    ensures Moved(Moved(a, from, to), to - 1, from) == a
  {
    var r := Moved(a, from, to);
    if from < to - 1 {
      var head, mid, tail := a[..from], a[from + 1..to], a[to..];
      assert r == head + mid + [a[from]] + tail;
      assert r[..from] == head && r[from..to - 1] == mid && r[to - 1] == a[from] && r[to..] == tail;
      assert a == head + [a[from]] + mid + tail;
    }
  }

  /** Moving index 0 forwards to 3 in [a, b, c, d] lands the element at index 2: [b, c, a, d]. */
  method MoveScenario() returns (r: seq<char>)
    ensures r == ['b', 'c', 'a', 'd']
  {
    r := MoveFromIndex(['a', 'b', 'c', 'd'], 0, 3);
  }

  /** Equal indices return at once, even on an empty array or past the end. */
  method MoveInPlaceScenario() returns (empty: seq<int>, single: seq<int>)
    ensures empty == [] && single == [1]
  {
    empty := MoveFromIndex([], 0, 0);
    single := MoveFromIndex([1], 5, 5);
  }
}
