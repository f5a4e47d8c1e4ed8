/**
 * A segmented array: an ordered list of aggregate arrays ("segments")
 * addressed by one flat index. Its logical contents are the segments'
 * elements concatenated in order; every segment keeps its own aggregate.
 */
module SegmentedArrays {
  import opened Sequences
  import opened StringAggregates
  import opened AggregateSum
  import opened AggregateArrays
  import opened SegmentedArrayEntries
  import opened NestedSequenceGenerators

  /** One stretch reported while walking a range: local `lo..<hi` of segment `segmentIndex`. */
  datatype Piece = Piece(segmentIndex: int, lo: int, hi: int)

  /**
   * The bookkeeping of a walk over the range `lo..<hi`, segment by segment:
   * `i` and `j` are the range's ends relative to the current segment until
   * the walk has entered (`inside`) or left (`lastSegment`) the range, and
   * `firstSegment` marks the segment the range starts in.
   */
  datatype Walk = Walk(i: int, j: int, firstSegment: bool, lastSegment: bool, inside: bool)

  /** The walk before the first segment. */
  function StartWalk(lo: int, hi: int): (w: Walk)
    requires 0 <= lo <= hi
    ensures WalkAt(w, lo, hi, 0)
  {
    Walk(lo, hi, false, false, false)
  }

  /**
   * The stretch of segment `k` (of `c` elements) that the range covers once
   * the walk is inside it: `i..<j` in the segment where it both starts and
   * ends, `i..<c` where it starts, `0..<j` where it ends, all of it between.
   */
  function Stretch(w: Walk, k: int, c: int): (p: Piece)
    ensures 0 <= c && (w.firstSegment ==> 0 <= w.i <= c) && (w.lastSegment ==> 0 <= w.j <= c)
            && (w.firstSegment && w.lastSegment ==> w.i <= w.j)
            ==> p.segmentIndex == k && 0 <= p.lo <= p.hi <= c
  {
    Piece(k, if w.firstSegment then w.i else 0, if w.lastSegment then w.j else c)
  }

  /** The walk has passed `off` elements without reaching the range's end. */
  ghost predicate WalkAt(w: Walk, lo: int, hi: int, off: int)
  {
    && 0 <= off <= hi
    && !w.lastSegment
    && (w.inside <==> lo < off)
    && (!w.inside ==> !w.firstSegment && w.i == lo - off)
    && w.j == hi - off
  }

  /**
   * One step of the walk over a segment of `c` elements: the walk is inside
   * the range once the range has started before the segment's end, it
   * enters at this segment exactly when it was outside, and it reaches the
   * range's end once the end lies before the segment's end.
   */
  function Advance(w: Walk, c: int): (r: Walk)
    ensures r.inside <==> w.inside || w.i < c
    ensures !w.inside && w.i < c ==> r.firstSegment && r.i == w.i
    ensures w.inside ==> !r.firstSegment
    ensures r.lastSegment <==> w.lastSegment || w.j < c
    ensures !w.lastSegment && w.j < c ==> r.j == w.j
  {
    var w' :=
      if !w.inside then
        if w.i >= c then w.(i := w.i - c) else w.(firstSegment := true, inside := true)
      else
        w.(firstSegment := false);
    if w'.j >= c then w'.(j := w'.j - c) else w'.(lastSegment := true)
  }

  /**
   * After a step over `c` elements the walk is inside the range exactly when
   * the range starts before the segment's end, ends in this segment exactly
   * when the range ends before it, and otherwise stands at `off + c`. Inside
   * the range, the stretch it reports for the segment (`i` or 0 up to `j` or
   * `c`) is the part of the segment the range covers.
   */
  lemma AdvanceStep(w: Walk, c: int, lo: int, hi: int, off: int)
    requires 0 <= lo <= hi && 0 <= c
    requires WalkAt(w, lo, hi, off)
    ensures var r := Advance(w, c);
            && (r.inside <==> lo < off + c)
            && (r.lastSegment <==> hi < off + c)
            && (!r.lastSegment ==> WalkAt(r, lo, hi, off + c))
            && (r.inside ==> (r.firstSegment <==> off <= lo))
            && (r.firstSegment ==> r.i == lo - off)
            && (r.lastSegment ==> r.j == hi - off)
  {
  }

  /**
   * What one step of `removeRange`'s filter does to the cut, for a segment
   * `S` preceded by `P`: the segment the range passes by is kept whole, the
   * one it covers entirely is dropped, and the one it starts or ends in
   * keeps what lies outside its stretch.
   */
  lemma TrimStep<T>(P: seq<T>, S: seq<T>, w: Walk, lo: int, hi: int)
    requires 0 <= lo <= hi && WalkAt(w, lo, hi, |P|)
    ensures var r := Advance(w, |S|);
            && (r.lastSegment ==> hi < |P| + |S|)
            && (!r.lastSegment ==> WalkAt(r, lo, hi, |P| + |S|))
            && (!r.inside ==> Cut(P + S, lo, hi) == Cut(P, lo, hi) + S)
            && (r.inside && !r.firstSegment && !r.lastSegment ==> Cut(P + S, lo, hi) == Cut(P, lo, hi))
            && (r.inside && (r.firstSegment || r.lastSegment) ==>
                  var a, b := (if r.firstSegment then r.i else 0), (if r.lastSegment then r.j else |S|);
                  0 <= a <= b <= |S| && Cut(P + S, lo, hi) == Cut(P, lo, hi) + (S[..a] + S[b..]))
  {
    AdvanceStep(w, |S|, lo, hi, |P|);
    CutStep(P, S, lo, hi);
    var r := Advance(w, |S|);
    if r.inside && r.firstSegment && !r.lastSegment {
      assert S[..r.i] + S[|S|..] == S[..r.i];
    } else if r.inside && !r.firstSegment && r.lastSegment {
      assert S[..0] + S[r.j..] == S[r.j..];
    }
  }

  /**
   * The filter's cut after segment `k`: what is kept so far (with the
   * trimmed segment `E` when it stays) is the cut of the first `k + 1`
   * segments, and the walk stands at their end.
   */
  lemma FilterCut<T>(ss: seq<seq<T>>, k: int, keptSegs: seq<seq<T>>, E: seq<T>, keep: bool, lo: int, hi: int, w': Walk)
    requires 0 <= k < |ss| && 0 <= lo <= hi
    requires var P := Concat(ss[..k]);
             && (w'.lastSegment ==> hi < |P| + |ss[k]|)
             && (!w'.lastSegment ==> WalkAt(w', lo, hi, |P| + |ss[k]|))
             && Concat(keptSegs) == Cut(P, lo, hi)
             && Cut(P + ss[k], lo, hi) == Cut(P, lo, hi) + (if keep then E else [])
    ensures w'.lastSegment ==> hi < Offset(ss, k + 1)
    ensures !w'.lastSegment ==> WalkAt(w', lo, hi, Offset(ss, k + 1))
    ensures Concat(if keep then keptSegs + [E] else keptSegs) == Cut(Concat(ss[..k + 1]), lo, hi)
  {
    ConcatStep(ss, k);
    if keep {
      var ks := keptSegs + [E];
      assert ks[..|ks| - 1] == keptSegs;
    }
  }

  /**
   * An empty segment put in at `at` leaves the concatenation and the offset
   * of `at` alone, and keeps every segment within a bound the old ones kept.
   */
  lemma EmptySegmentInserted<T>(ss: seq<seq<T>>, at: int, max: int)
    requires 0 <= at <= |ss|
    ensures var ss' := ss[..at] + [[]] + ss[at..];
            && ss'[..at] == ss[..at]
            && Concat(ss[..at]) + [] + Concat(ss[at..]) == Concat(ss)
            && (0 <= max && (forall m :: 0 <= m < |ss| ==> |ss[m]| <= max) ==>
                  forall m :: 0 <= m < |ss'| ==> |ss'[m]| <= max)
  {
    var ss' := ss[..at] + [[]] + ss[at..];
    assert ss'[..at] == ss[..at];
    ConcatPrefix(ss, at);
    if 0 <= max && (forall m :: 0 <= m < |ss| ==> |ss[m]| <= max) {
      forall m | 0 <= m < |ss'|
        ensures |ss'[m]| <= max
      {
        if m > at {
          assert ss'[m] == ss[m - 1];
        }
      }
    }
  }

  /**
   * Removing element `i` of segment `k` removes position `p`, its place in
   * the concatenation, and keeps every segment within a bound the old ones
   * kept.
   */
  lemma RemovedFromSegment<T>(ss: seq<seq<T>>, k: int, i: int, p: int, max: int)
    requires 0 <= k < |ss| && 0 <= i < |ss[k]| && p == Offset(ss, k) + i
    ensures var E := ss[k];
            var ss' := ss[k := E[..i] + E[i + 1..]];
            && p < |Concat(ss)| && Concat(ss)[p] == E[i]
            && Concat(ss') == Concat(ss)[..p] + Concat(ss)[p + 1..]
            && (0 <= max && (forall m :: 0 <= m < |ss| ==> |ss[m]| <= max) ==>
                  forall m :: 0 <= m < |ss'| ==> |ss'[m]| <= max)
  {
    var E := ss[k];
    ConcatAt(ss, k, i);
    assert E[..i] + E[i + 1..] == E[..i] + [] + E[i + 1..];
    ConcatReplaceWithin(ss, k, i, i + 1, []);
  }

  /** Updating element `i` of segment `k` updates position `p`, its place in the concatenation. */
  lemma UpdatedInSegment<T>(ss: seq<seq<T>>, k: int, i: int, p: int, x: T)
    requires 0 <= k < |ss| && 0 <= i < |ss[k]| && p == Offset(ss, k) + i
    ensures p < |Concat(ss)| && Concat(ss[k := ss[k][i := x]]) == Concat(ss)[p := x]
  {
    var E := ss[k];
    UpdateIsReplace(E, i, x);
    assert ss[k := E[i := x]] == ss[k := E[..i] + [x] + E[i + 1..]];
    ConcatReplaceWithin(ss, k, i, i + 1, [x]);
    UpdateIsReplace(Concat(ss), p, x);
  }

  /** The pieces name consecutive segments, starting with segment `first`. */
  ghost predicate NumberedFrom(pieces: seq<Piece>, first: int)
  {
    forall n :: 0 <= n < |pieces| ==> pieces[n].segmentIndex == first + n
  }

  lemma NumberedAppend(pieces: seq<Piece>, first: int, p: Piece)
    requires NumberedFrom(pieces, first) && p.segmentIndex == first + |pieces|
    ensures NumberedFrom(pieces + [p], first)
  {
    var q := pieces + [p];
    forall n | 0 <= n < |q|
      ensures q[n].segmentIndex == first + n
    {
      if n < |pieces| {
        assert q[n] == pieces[n];
      }
    }
  }

  /** The segments' character counts summed in order give the character count of their concatenation. */
  lemma {:induction false} SumOfSegmentCounts(segs: seq<seq<string>>, counts: seq<int>)
    requires |counts| == |segs|
    requires forall k :: 0 <= k < |segs| ==> counts[k] == Total(segs[k])
    ensures FoldSum(counts) == Total(Concat(segs))
    decreases |segs|
  {
    if |segs| > 0 {
      var n := |segs| - 1;
      SumOfSegmentCounts(segs[..n], counts[..n]);
      assert counts[..n] + [counts[n]] == counts;
      FoldSumAppend(counts[..n], [counts[n]]);
      TotalAppend(Concat(segs[..n]), segs[n]);
    }
  }

  /**
   * Splitting segment `k` at `i` and putting the second half right after it
   * keeps the concatenation and starts the second half `i` past the old
   * segment's start.
   */
  lemma SplitInPlace<T>(before: seq<seq<T>>, halved: seq<seq<T>>, after: seq<seq<T>>, k: int, i: int)
    requires 0 <= k < |before| && 0 <= i <= |before[k]|
    requires halved == before[k := before[k][..i]]
    requires after == halved[..k + 1] + [before[k][i..]] + halved[k + 1..]
    ensures Concat(after) == Concat(before) && Offset(after, k + 1) == Offset(before, k) + i
    ensures after == SplitAt(before, k, i, false)
  {
    ConcatSplitSegment(before, k, i);
    assert after[..k + 1] == halved[..k + 1];
    assert halved[..k] == before[..k] && halved[k + 1..] == before[k + 1..];
  }

  /**
   * Segment `k` cut at `i` into two segments, with an empty segment
   * between the halves when `gap` holds; the other segments stay.
   */
  function SplitAt<T>(ss: seq<seq<T>>, k: int, i: int, gap: bool): (r: seq<seq<T>>)
    requires 0 <= k < |ss| && 0 <= i <= |ss[k]|
    ensures |r| == |ss| + (if gap then 2 else 1)
    ensures r[..k] == ss[..k] && r[k] == ss[k][..i] && r[|r| - |ss| + k] == ss[k][i..]
    ensures r[|r| - |ss| + k + 1..] == ss[k + 1..]
  {
    ss[..k] + [ss[k][..i]] + (if gap then [[]] else []) + [ss[k][i..]] + ss[k + 1..]
  }

  /** An empty segment put right after the first half of a split gives the split with a gap. */
  lemma GapInserted<T>(ss: seq<seq<T>>, k: int, i: int)
    requires 0 <= k < |ss| && 0 <= i <= |ss[k]|
    ensures var t := SplitAt(ss, k, i, false);
            t[..k + 1] + [[]] + t[k + 1..] == SplitAt(ss, k, i, true)
  {
    var t := SplitAt(ss, k, i, false);
    assert t[..k + 1] == ss[..k] + [ss[k][..i]];
    assert t[k + 1..] == [ss[k][i..]] + ss[k + 1..];
  }

  /**
   * Appending into segments of `max`: `s` segments whose last holds `last`
   * hold `(s - 1) * max + last` elements, so `s` is that number divided by
   * `max` and rounded up; when the last is full the next element opens
   * segment `s + 1`.
   */
  lemma Filled(s: int, last: int, max: int, n: int)
    requires max >= 1 && s >= 1 && 1 <= last <= max && (s - 1) * max + last == n
    ensures (s - 1) * max < n <= s * max
    ensures last == max ==> s * max + 1 == n + 1
  {
  }

  /**
   * How many segments `entryForIndex` adds to make room for `load`
   * elements at element `i` of a segment of `c`: none when the segment has
   * room, one when the split-off half has room, two when even that half
   * needs an empty segment before it.
   */
  function SegmentsAdded(c: int, i: int, load: int, max: int): (n: int)
    ensures 0 <= n <= 2
    ensures n == 0 <==> c + load <= max
  {
    if c + load <= max then 0 else if c - i + load <= max then 1 else 2
  }

  /** Every segment holds at most `max` elements. */
  ghost predicate AllWithin<T>(ss: seq<seq<T>>, max: int)
  {
    forall m :: 0 <= m < |ss| ==> |ss[m]| <= max
  }

  /**
   * The segment list after `append`, or after one pass of `extend`'s loop:
   * the element ends the last segment, or starts a new one when there is
   * none or the last already holds `max` elements.
   */
  function AppendLayout<T>(ss: seq<seq<T>>, x: T, max: int): (r: seq<seq<T>>)
    ensures Concat(r) == Concat(ss) + [x]
    ensures |ss| <= |r| <= |ss| + 1 && |r[|r| - 1]| >= 1
  {
    if |ss| == 0 || |ss[|ss| - 1]| >= max then
      ConcatAppend(ss, [[x]]);
      ConcatSingle([x]);
      ss + [[x]]
    else
      var r := ss[|ss| - 1 := ss[|ss| - 1] + [x]];
      assert r[..|r| - 1] == ss[..|ss| - 1];
      r
  }

  /** One `AppendLayout` leaves every segment but the last as it was, and grows no segment past `max`. */
  lemma AppendLayoutKeeps<T>(ss: seq<seq<T>>, x: T, max: int)
    ensures var r := AppendLayout(ss, x, max);
            (|ss| > 0 ==> r[..|ss| - 1] == ss[..|ss| - 1])
            && (max >= 1 && AllWithin(ss, max) ==> AllWithin(r, max))
  {
    var r := AppendLayout(ss, x, max);
    if |ss| > 0 {
      assert r[..|ss| - 1] == ss[..|ss| - 1];
    }
  }

  /** The segment list after `extend` adds `xs` to `ss`: one `AppendLayout` per element, in order. */
  function ExtendLayout<T>(ss: seq<seq<T>>, xs: seq<T>, max: int): (r: seq<seq<T>>)
    ensures |ss| <= |r|
    decreases |xs|
  {
    if |xs| == 0 then ss else AppendLayout(ExtendLayout(ss, xs[..|xs| - 1], max), xs[|xs| - 1], max)
  }

  /**
   * What `extend` keeps: the new elements follow the old ones, no segment
   * is removed, and no segment grows past `max`.
   */
  lemma {:induction false} ExtendLayoutKeeps<T>(ss: seq<seq<T>>, xs: seq<T>, max: int)
    ensures var r := ExtendLayout(ss, xs, max);
            Concat(r) == Concat(ss) + xs
            && (max >= 1 && AllWithin(ss, max) ==> AllWithin(r, max))
    decreases |xs|
  {
    if |xs| > 0 {
      ExtendLayoutKeeps(ss, xs[..|xs| - 1], max);
      AppendLayoutKeeps(ExtendLayout(ss, xs[..|xs| - 1], max), xs[|xs| - 1], max);
      assert xs[..|xs| - 1] + [xs[|xs| - 1]] == xs;
    }
  }

  /** Up to `max` elements extended into one empty segment stay in that one segment. */
  lemma {:induction false} ExtendLayoutFits<T>(xs: seq<T>, max: int)
    requires |xs| <= max
    ensures ExtendLayout([[]], xs, max) == [xs]
    decreases |xs|
  {
    if |xs| > 0 {
      ExtendLayoutFits(xs[..|xs| - 1], max);
      assert xs[..|xs| - 1] + [xs[|xs| - 1]] == xs;
    }
  }

  /** Extending by one element is one `AppendLayout`. */
  lemma ExtendLayoutSingle<T>(ss: seq<seq<T>>, x: T, max: int)
    ensures ExtendLayout(ss, [x], max) == AppendLayout(ss, x, max)
  {
    assert [x][..0] == [];
  }

  /**
   * `extend` starts from the segments it has, or from one empty segment
   * when there are none; either way its elements follow the old ones and
   * no segment grows past `max`.
   */
  lemma ExtendedFrom<T>(ss: seq<seq<T>>, start: seq<seq<T>>, xs: seq<T>, max: int)
    requires start == if |ss| == 0 then [[]] else ss
    ensures var r := ExtendLayout(start, xs, max);
            Concat(r) == Concat(ss) + xs && (max >= 1 && AllWithin(ss, max) ==> AllWithin(r, max))
  {
    ExtendLayoutKeeps(start, xs, max);
    ConcatSingle<T>([]);
  }

  /**
   * Extending from a last segment of at most `max` elements fills segments
   * in turn: the segments before the old last one stay, every segment from
   * the old last one up to the new last one ends up full, and the new last
   * one holds between 1 and `max` elements once anything was added.
   */
  lemma {:induction false} ExtendLayoutFills<T>(ss: seq<seq<T>>, xs: seq<T>, max: int)
    requires max >= 1 && |ss| > 0 && |ss[|ss| - 1]| <= max
    ensures var r := ExtendLayout(ss, xs, max);
            && r[..|ss| - 1] == ss[..|ss| - 1]
            && (forall m :: |ss| - 1 <= m < |r| - 1 ==> |r[m]| == max)
            && |r[|r| - 1]| <= max && (|xs| > 0 ==> |r[|r| - 1]| >= 1)
    decreases |xs|
  {
    if |xs| > 0 {
      var t := ExtendLayout(ss, xs[..|xs| - 1], max);
      ExtendLayoutFills(ss, xs[..|xs| - 1], max);
      AppendLayoutKeeps(t, xs[|xs| - 1], max);
      var r := AppendLayout(t, xs[|xs| - 1], max);
      assert r[..|ss| - 1] == t[..|t| - 1][..|ss| - 1];
      forall m | |ss| - 1 <= m < |r| - 1
        ensures |r[m]| == max
      {
        assert r[m] == t[m];
      }
    }
  }

  /** Splitting a segment keeps every segment within a bound the old ones kept. */
  lemma SplitWithin<T>(before: seq<seq<T>>, halved: seq<seq<T>>, after: seq<seq<T>>, k: int, i: int, max: int)
    requires 0 <= k < |before| && 0 <= i <= |before[k]|
    requires halved == before[k := before[k][..i]]
    requires after == halved[..k + 1] + [before[k][i..]] + halved[k + 1..]
    requires forall m :: 0 <= m < |before| ==> |before[m]| <= max
    ensures forall m :: 0 <= m < |after| ==> |after[m]| <= max
  {
    forall m | 0 <= m < |after|
      ensures |after[m]| <= max
    {
      if m > k + 1 {
        assert after[m] == before[m - 1];
      }
    }
  }

  /**
   * What `print(element, toStream: &desc)` writes for a string element: the
   * string, then `print`'s default terminator, a newline.
   */
  function Printed(e: string): (p: string)
    ensures |p| == |e| + 1 && p[..|e|] == e && p[|e|] == '\n'
  {
    e + "\n"
  }

  /** The printed strings separated by ", ", as `description` writes them. */
  function Join(xs: seq<string>): string
  {
    if |xs| == 0 then "" else if |xs| == 1 then Printed(xs[0]) else Join(xs[..|xs| - 1]) + ", " + Printed(xs[|xs| - 1])
  }

  /** Every element contributes its characters and a newline, and every gap two more. */
  lemma {:induction false} JoinLength(xs: seq<string>)
    requires |xs| > 0
    ensures |Join(xs)| == Total(xs) + 3 * |xs| - 2
    decreases |xs|
  {
    if |xs| > 1 {
      JoinLength(xs[..|xs| - 1]);
    } else {
      assert xs[..0] == [];
    }
  }

  /** One more element: it is printed after the others and a ", " gap, or stands alone. */
  lemma JoinSnoc(xs: seq<string>, y: string)
    ensures Join(xs + [y]) == if |xs| == 0 then Printed(y) else Join(xs) + ", " + Printed(y)
  {
    assert (xs + [y])[..|xs|] == xs;
  }

  /**
   * Text before the elements keeps its place: one more printed element
   * follows a ", " gap, or comes straight after it.
   */
  lemma DescribeStep(before: string, xs: seq<string>, y: string)
    ensures before + Join(xs + [y]) == if |xs| == 0 then before + Printed(y) else before + Join(xs) + ", " + Printed(y)
  {
    JoinSnoc(xs, y);
    if |xs| > 0 {
      AppendAssoc(before, Join(xs), ", ", Printed(y));
    }
  }

  /** Regrouping four appended pieces. */
  lemma AppendAssoc<T>(a: seq<T>, b: seq<T>, c: seq<T>, d: seq<T>)
    ensures a + (b + c + d) == a + b + c + d
  {
  }

  /** The inner loop of `description`: one segment's elements, each printed after a ", " unless it is the very first. */
  method DescribeElements(desc: string, index: int, elements: seq<string>, ghost done: seq<string>)
    returns (desc': string, index': int)
    requires desc == "[" + Join(done) && index == |done|
    ensures desc' == "[" + Join(done + elements) && index' == |done + elements|
  {
    desc', index' := desc, index;
    assert done + elements[..0] == done;
    var e := 0;
    while e < |elements|
      invariant 0 <= e <= |elements|
      invariant desc' == "[" + Join(done + elements[..e]) && index' == |done| + e
    {
      DescribeStep("[", done + elements[..e], elements[e]);
      if index' > 0 {
        desc' := desc' + ", ";
      }
      desc' := desc' + Printed(elements[e]);
      assert done + elements[..e + 1] == done + elements[..e] + [elements[e]];
      index' := index' + 1;
      e := e + 1;
    }
    assert elements[..e] == elements;
  }

  class SegmentedArray {
    var segments: seq<AggregateArray>
    const maxSegmentSize: int
    /** The elements of each segment, in segment order. */
    ghost var Segs: seq<seq<string>>
    /** The segment objects this array owns. */
    ghost var Repr: set<AggregateArray>

    /**
     * `Segs` mirrors the segments, every segment's aggregate covers its
     * elements, and no segment object appears twice.
     */
    ghost predicate Valid()
      reads this, Repr
    {
      && |Segs| == |segments|
      && (forall k :: 0 <= k < |segments| ==> segments[k] in Repr)
      && (forall k :: 0 <= k < |segments| ==> segments[k].elements == Segs[k])
      && (forall k :: 0 <= k < |segments| ==> segments[k].Consistent())
      && (forall j, k :: 0 <= j < k < |segments| ==> segments[j] != segments[k])
    }

    /** The logical contents: the segments concatenated in order. */
    ghost function Contents(): seq<string>
      reads this
    {
      Concat(Segs)
    }

    /** No segment holds more than `maxSegmentSize` elements. */
    ghost predicate Bounded()
      reads this
    {
      forall k :: 0 <= k < |Segs| ==> |Segs[k]| <= maxSegmentSize
    }

    /** `init()`: no segments, segments of at most 128 elements. */
    constructor ()
      ensures Valid() && Segs == [] && Contents() == [] && maxSegmentSize == 128
      ensures fresh(Repr)
    {
      segments := [];
      Segs := [];
      Repr := {};
      maxSegmentSize := 128;
    }

    /** `init(maxSegmentSize:)`: no segments. */
    constructor WithMaxSegmentSize(maxSegmentSize: int)
      ensures Valid() && Segs == [] && Contents() == [] && this.maxSegmentSize == maxSegmentSize
      ensures fresh(Repr)
    {
      segments := [];
      Segs := [];
      Repr := {};
      this.maxSegmentSize := maxSegmentSize;
    }

    /** `init(_:maxSegmentSize:)`: appends the elements one by one. */
    constructor FromSequence(newElements: seq<string>, maxSegmentSize: int)
      ensures Valid() && Contents() == newElements && this.maxSegmentSize == maxSegmentSize
      ensures maxSegmentSize >= 1 ==> Bounded()
      ensures maxSegmentSize >= 1 ==> (|segments| - 1) * maxSegmentSize < |newElements| <= |segments| * maxSegmentSize
      ensures fresh(Repr)
    {
      segments := [];
      Segs := [];
      Repr := {};
      this.maxSegmentSize := maxSegmentSize;
      new;
      var n := 0;
      while n < |newElements|
        invariant 0 <= n <= |newElements|
        invariant Valid() && Contents() == newElements[..n]
        invariant maxSegmentSize >= 1 ==> Bounded()
        invariant n == 0 ==> |Segs| == 0
        invariant maxSegmentSize >= 1 && n > 0 ==>
                  |Segs| > 0 && |Segs[|Segs| - 1]| >= 1 && (|Segs| - 1) * maxSegmentSize + |Segs[|Segs| - 1]| == n
        invariant fresh(Repr)
      {
        assert newElements[..n + 1] == newElements[..n] + [newElements[n]];
        ghost var count, last := |Segs|, if |Segs| > 0 then |Segs[|Segs| - 1]| else 0;
        Append(newElements[n]);
        if maxSegmentSize >= 1 && n > 0 {
          Filled(count, last, maxSegmentSize, n);
        }
        n := n + 1;
      }
      if maxSegmentSize >= 1 && n > 0 {
        Filled(|Segs|, |Segs[|Segs| - 1]|, maxSegmentSize, n);
      }
    }

    /** Puts the consistent segment `s` at position `at` of the segment list. */
    method InsertSegment(at: int, s: AggregateArray)
      requires Valid()
      requires 0 <= at <= |segments|
      requires s !in Repr && s.Consistent()
      modifies this
      ensures segments == old(segments)[..at] + [s] + old(segments)[at..]
      ensures Segs == old(Segs)[..at] + [s.elements] + old(Segs)[at..]
      ensures Repr == old(Repr) + {s}
      ensures Valid()
      ensures Contents() == Concat(old(Segs)[..at]) + s.elements + Concat(old(Segs)[at..])
    {
      InsertKeepsOwnership(segments, Segs, Repr, at, s);
      segments := segments[..at] + [s] + segments[at..];
      Segs := Segs[..at] + [s.elements] + Segs[at..];
      Repr := Repr + {s};
      ConcatInsert(old(Segs), at, s.elements);
    }

    /** A consistent segment from outside, put into the list, keeps every segment owned, mirrored, consistent and distinct. */
    static lemma InsertKeepsOwnership(segs: seq<AggregateArray>, ss: seq<seq<string>>, R: set<AggregateArray>,
                                      at: int, s: AggregateArray)
      requires |ss| == |segs| && 0 <= at <= |segs|
      requires forall k :: 0 <= k < |segs| ==> segs[k] in R && segs[k].elements == ss[k] && segs[k].Consistent()
      requires forall j, k :: 0 <= j < k < |segs| ==> segs[j] != segs[k]
      requires s !in R && s.Consistent()
      ensures var segs', ss' := segs[..at] + [s] + segs[at..], ss[..at] + [s.elements] + ss[at..];
              && |ss'| == |segs'|
              && (forall k :: 0 <= k < |segs'| ==> segs'[k] in R + {s})
              && (forall k :: 0 <= k < |segs'| ==> segs'[k].elements == ss'[k])
              && (forall k :: 0 <= k < |segs'| ==> segs'[k].Consistent())
              && (forall j, k :: 0 <= j < k < |segs'| ==> segs'[j] != segs'[k])
    {
      var segs', ss' := segs[..at] + [s] + segs[at..], ss[..at] + [s.elements] + ss[at..];
      forall m | 0 <= m < |segs'|
        ensures segs'[m] in R + {s} && segs'[m].elements == ss'[m] && segs'[m].Consistent()
      {
        if m > at {
          assert segs'[m] == segs[m - 1] && ss'[m] == ss[m - 1];
        }
      }
      forall j, m | 0 <= j < m < |segs'|
        ensures segs'[j] != segs'[m]
      {
        if j < at && m > at {
          assert segs'[m] == segs[m - 1];
        } else if j > at {
          assert segs'[j] == segs[j - 1] && segs'[m] == segs[m - 1];
        }
      }
    }

    /**
     * `entryForIndex(_:load:)`: locates flat position `index` (clamped to the
     * count). The contents never change. With a positive `load`, a segment
     * that could not take `load` more elements is split at the position first
     * (and an empty segment put in front of the split-off half if even that
     * half has no room), so the entry has room for `load` elements unless it
     * sits at the end of its segment. With no segments at all, one empty
     * segment is added.
     */
    method EntryForIndex(index: int, load: int) returns (entry: SegmentedArrayEntry)
      requires Valid()
      requires 0 <= index
      modifies this, Repr
      ensures Valid() && Contents() == old(Contents())
      ensures 0 <= entry.segmentIndex < |segments| && entry.segment == segments[entry.segmentIndex]
      ensures 0 <= entry.index <= |Segs[entry.segmentIndex]|
      ensures Offset(Segs, entry.segmentIndex) + entry.index == Min(index, |Contents()|)
      ensures index < |Contents()| && load <= 0 ==> entry.index < |Segs[entry.segmentIndex]|
      ensures index >= |Contents()| && old(|segments|) > 0 ==>
              entry.segmentIndex == |segments| - 1 && entry.index == |Segs[entry.segmentIndex]|
      ensures (load <= 0 || index >= |Contents()|) && old(|segments|) > 0 ==>
              segments == old(segments) && Segs == old(Segs) && Repr == old(Repr)
      ensures old(|segments|) == 0 ==> segments[..] == [entry.segment] && Segs == [[]]
      ensures load > 0 ==>
              entry.index == |Segs[entry.segmentIndex]| || |Segs[entry.segmentIndex]| + load <= maxSegmentSize
      ensures load > 0 && index < |Contents()| ==>
              Segs[entry.segmentIndex] == [] || |Segs[entry.segmentIndex]| + load <= maxSegmentSize
      ensures forall k, j :: load > 0 && Locates(old(Segs), index, k, j) ==>
              Segs == if |old(Segs)[k]| + load <= maxSegmentSize then old(Segs)
                      else SplitAt(old(Segs), k, j, |old(Segs)[k]| - j + load > maxSegmentSize)
      ensures maxSegmentSize >= 0 && old(Bounded()) ==> Bounded()
      ensures fresh(Repr - old(Repr))
    {
      var k, i, found := Locate(index);
      if found {
        forall k', j' | Locates(Segs, index, k', j')
          ensures k' == k && j' == i
        {
          LocatesUnique(Segs, index, k, i, k', j');
        }
        entry := EntryInside(k, i, load);
        return;
      }
      forall k', j' | Locates(Segs, index, k', j')
        ensures false
      {
        LocatesInside(Segs, index, k', j');
      }
      entry := EntryAtEnd();
    }

    /**
     * `entryForIndex` past the contents: the end of the last segment, which
     * is opened empty when there are no segments.
     */
    method EntryAtEnd() returns (entry: SegmentedArrayEntry)
      requires Valid()
      modifies this
      ensures Valid() && Contents() == old(Contents())
      ensures 0 <= entry.segmentIndex == |segments| - 1 && entry.segment == segments[entry.segmentIndex]
      ensures entry.index == |Segs[entry.segmentIndex]| && Offset(Segs, entry.segmentIndex) + entry.index == |Contents()|
      ensures old(|segments|) > 0 ==> segments == old(segments) && Segs == old(Segs) && Repr == old(Repr)
      ensures old(|segments|) == 0 ==> segments[..] == [entry.segment] && Segs == [[]]
      ensures maxSegmentSize >= 0 && old(Bounded()) ==> Bounded()
      ensures fresh(Repr - old(Repr))
    {
      if |segments| > 0 {
        assert Segs[..|segments|] == Segs;
        ConcatStep(Segs, |segments| - 1);
        var lastSegment := segments[|segments| - 1];
        return SegmentedArrayEntry(lastSegment, |segments| - 1, |lastSegment.elements|);
      }
      var lastSegment := new AggregateArray();
      InsertSegment(0, lastSegment);
      ConcatSingle<string>([]);
      return SegmentedArrayEntry(lastSegment, 0, 0);
    }

    /**
     * `entryForIndex` for a position inside the contents, element `i` of
     * segment `k`: with a load the segment cannot take, the segment is split
     * there first.
     */
    method EntryInside(k: int, i: int, load: int) returns (entry: SegmentedArrayEntry)
      requires Valid() && 0 <= k < |segments| && 0 <= i < |Segs[k]|
      modifies this, Repr
      ensures Valid() && Contents() == old(Contents())
      ensures 0 <= entry.segmentIndex < |segments| && entry.segment == segments[entry.segmentIndex]
      ensures 0 <= entry.index <= |Segs[entry.segmentIndex]|
      ensures Offset(Segs, entry.segmentIndex) + entry.index == Offset(old(Segs), k) + i
      ensures load <= 0 ==> entry.index < |Segs[entry.segmentIndex]|
      ensures load <= 0 ==> segments == old(segments) && Segs == old(Segs) && Repr == old(Repr)
      ensures load > 0 ==> Segs[entry.segmentIndex] == [] || |Segs[entry.segmentIndex]| + load <= maxSegmentSize
      ensures load > 0 ==>
              Segs == if |old(Segs)[k]| + load <= maxSegmentSize then old(Segs)
                      else SplitAt(old(Segs), k, i, |old(Segs)[k]| - i + load > maxSegmentSize)
      ensures maxSegmentSize >= 0 && old(Bounded()) ==> Bounded()
      ensures fresh(Repr - old(Repr))
    {
      var segment := segments[k];
      var c := |segment.elements|;
      if load > 0 && c + load > maxSegmentSize {
        entry := SplitForLoad(k, i, load);
        return;
      }
      return SegmentedArrayEntry(segment, k, i);
    }

    /**
     * The search loop of `entryForIndex`: subtracts segment sizes from the
     * index until it falls inside segment `k`, or runs past the last one.
     */
    method Locate(index: int) returns (k: int, i: int, found: bool)
      requires Valid() && 0 <= index
      ensures found ==> 0 <= k < |segments| && 0 <= i < |Segs[k]| && Offset(Segs, k) + i == index
      ensures found <==> index < |Contents()|
    {
      i, k := index, 0;
      while k < |segments|
        invariant 0 <= k <= |segments|
        invariant Offset(Segs, k) <= index && i == index - Offset(Segs, k)
      {
        var c := |segments[k].elements|;
        ConcatStep(Segs, k);
        if i < c {
          ConcatPrefix(Segs, k + 1);
          return k, i, true;
        }
        i, k := i - c, k + 1;
      }
      assert Segs[..k] == Segs;
      found := false;
    }

    /**
     * The splitting branch of `entryForIndex`: segment `k` is split at local
     * index `i`; the split-off half goes right after it, preceded by a fresh
     * empty segment when the half itself has no room for `load` elements.
     */
    method SplitForLoad(k: int, i: int, load: int) returns (entry: SegmentedArrayEntry)
      requires Valid()
      requires 0 <= k < |segments| && 0 <= i < |Segs[k]|
      requires load > 0 && |Segs[k]| + load > maxSegmentSize
      modifies this, Repr
      ensures Valid() && Contents() == old(Contents())
      ensures entry.segmentIndex == k + 1 < |segments| && entry.segment == segments[k + 1]
      ensures entry.index == 0 && Offset(Segs, k + 1) == Offset(old(Segs), k) + i
      ensures Segs == SplitAt(old(Segs), k, i, |old(Segs)[k]| - i + load > maxSegmentSize)
      ensures Segs[k + 1] == [] || |Segs[k + 1]| + load <= maxSegmentSize
      ensures maxSegmentSize >= 0 && old(Bounded()) ==> Bounded()
      ensures fresh(Repr - old(Repr))
    {
      ghost var before := Segs;
      var newSegment := SplitSegment(k, i);
      assert |newSegment.elements| == |before[k]| - i by {
        assert Segs[k + 1] == before[k][i..];
      }
      if |newSegment.elements| > 0 && |newSegment.elements| + load > maxSegmentSize {
        newSegment := OpenGap(before, k, i);
      }
      entry := SegmentedArrayEntry(newSegment, k + 1, 0);
    }

    /** The gap of a split: a fresh empty segment between the two halves of segment `k`. */
    method OpenGap(ghost before: seq<seq<string>>, k: int, i: int) returns (s: AggregateArray)
      requires Valid() && 0 <= k < |before| && 0 <= i <= |before[k]| && Segs == SplitAt(before, k, i, false)
      modifies this
      ensures Valid() && Contents() == old(Contents())
      ensures Segs == SplitAt(before, k, i, true) && k + 1 < |segments| && segments[k + 1] == s
      ensures Offset(Segs, k + 1) == Offset(old(Segs), k + 1)
      ensures maxSegmentSize >= 0 && old(Bounded()) ==> Bounded()
      ensures fresh(Repr - old(Repr))
    {
      s := InsertEmptySegment(k + 1);
      GapInserted(before, k, i);
    }

    /**
     * Splits segment `k` at local index `i` (the segment's `splitAtIndex`)
     * and puts the split-off half right after it.
     */
    method SplitSegment(k: int, i: int) returns (newSegment: AggregateArray)
      requires Valid()
      requires 0 <= k < |segments| && 0 <= i <= |Segs[k]|
      modifies this, Repr
      ensures Valid() && Contents() == old(Contents())
      ensures |segments| == old(|segments|) + 1 && segments[k + 1] == newSegment
      ensures Segs == SplitAt(old(Segs), k, i, false)
      ensures Offset(Segs, k + 1) == Offset(old(Segs), k) + i
      ensures maxSegmentSize >= 0 && old(Bounded()) ==> Bounded()
      ensures fresh(Repr - old(Repr))
    {
      newSegment := KeepFirstPart(k, i);
      ghost var halved := Segs;
      InsertSegment(k + 1, newSegment);
      SplitInPlace(old(Segs), halved, Segs, k, i);
      if maxSegmentSize >= 0 && old(Bounded()) {
        SplitWithin(old(Segs), halved, Segs, k, i, maxSegmentSize);
      }
    }

    /**
     * Segment `k` keeps its first `i` elements; the rest go to the returned
     * fresh array, which is not yet part of the segment list.
     */
    method KeepFirstPart(k: int, i: int) returns (rest: AggregateArray)
      requires Valid()
      requires 0 <= k < |segments| && 0 <= i <= |Segs[k]|
      modifies this, Repr
      ensures Valid() && segments == old(segments) && Repr == old(Repr)
      ensures Segs == old(Segs)[k := old(Segs)[k][..i]]
      ensures fresh(rest) && rest.Consistent() && rest.elements == old(Segs)[k][i..]
    {
      var segment := segments[k];
      rest := segment.SplitAtIndex(i);
      Segs := Segs[k := segment.elements];
      forall m | 0 <= m < |segments| && m != k
        ensures segments[m].elements == Segs[m] && segments[m].Consistent()
      {
        assert segments[m] != segment;
      }
    }

    /** Puts a fresh empty segment at position `at`; the contents do not change. */
    method InsertEmptySegment(at: int) returns (s: AggregateArray)
      requires Valid() && 0 <= at <= |segments|
      modifies this
      ensures Valid() && Contents() == old(Contents())
      ensures segments == old(segments)[..at] + [s] + old(segments)[at..]
      ensures Segs == old(Segs)[..at] + [[]] + old(Segs)[at..]
      ensures Offset(Segs, at) == Offset(old(Segs), at)
      ensures maxSegmentSize >= 0 && old(Bounded()) ==> Bounded()
      ensures fresh(Repr - old(Repr))
    {
      s := new AggregateArray();
      EmptySegmentInserted(Segs, at, maxSegmentSize);
      InsertSegment(at, s);
    }

    /** `count`: the segment lengths summed in order. */
    method Count() returns (c: int)
      requires Valid()
      ensures c == |Contents()|
    {
      c := 0;
      var k := 0;
      while k < |segments|
        invariant 0 <= k <= |segments|
        invariant c == Offset(Segs, k)
      {
        ConcatStep(Segs, k);
        c := c + |segments[k].elements|;
        k := k + 1;
      }
      assert Segs[..k] == Segs;
    }

    /**
     * `append`: the element goes at the end. A new segment is opened only
     * when there is none or the last one already holds `maxSegmentSize`
     * elements, so appends never overfill a segment.
     */
    method Append(element: string)
      requires Valid()
      modifies this, Repr
      ensures Valid() && Contents() == old(Contents()) + [element]
      ensures |segments| == old(|segments|) +
              (if old(|segments|) == 0 || |old(Segs)[old(|segments|) - 1]| >= maxSegmentSize then 1 else 0)
      ensures Segs == AppendLayout(old(Segs), element, maxSegmentSize)
      ensures maxSegmentSize >= 1 && old(Bounded()) ==> Bounded()
      ensures fresh(Repr - old(Repr))
    {
      if |segments| == 0 {
        AppendInNewSegment(element);
        return;
      }
      var lastSegment := segments[|segments| - 1];
      if |lastSegment.elements| >= maxSegmentSize {
        AppendInNewSegment(element);
        return;
      }
      AppendToLastSegment(element);
    }

    /** Opens a new last segment holding just `element`. */
    method AppendInNewSegment(element: string)
      requires Valid()
      modifies this
      ensures Valid() && Segs == old(Segs) + [[element]] && |segments| == old(|segments|) + 1
      ensures Contents() == old(Contents()) + [element]
      ensures fresh(Repr - old(Repr))
    {
      var newSegment := new AggregateArray();
      newSegment.Append(element);
      InsertSegment(|segments|, newSegment);
      assert old(Segs)[..|old(Segs)|] == old(Segs);
      ConcatSingle([element]);
    }

    /** Appends `element` to the last segment, which must exist. */
    method AppendToLastSegment(element: string)
      requires Valid() && |segments| > 0
      modifies Repr, this
      ensures Valid() && segments == old(segments) && Repr == old(Repr)
      ensures Segs == old(Segs)[|Segs| - 1 := old(Segs)[|Segs| - 1] + [element]]
      ensures Contents() == old(Contents()) + [element]
      ensures old(Bounded()) && |old(Segs)[|Segs| - 1]| < maxSegmentSize ==> Bounded()
    {
      var n := |segments| - 1;
      var lastSegment := segments[n];
      lastSegment.Append(element);
      Segs := Segs[n := lastSegment.elements];
      forall m | 0 <= m < n
        ensures segments[m].elements == Segs[m] && segments[m].Consistent()
      {
        assert segments[m] != lastSegment;
      }
      ConcatUpdate(old(Segs), n, lastSegment.elements);
      assert old(Segs)[n + 1..] == [];
      assert old(Bounded()) && |old(Segs)[n]| < maxSegmentSize ==> Bounded() by {
        if old(Bounded()) && |old(Segs)[n]| < maxSegmentSize {
          forall m | 0 <= m < |Segs|
            ensures |Segs[m]| <= maxSegmentSize
          {
            if m != n {
              assert Segs[m] == old(Segs)[m];
            }
          }
        }
      }
    }

    /** `isEmpty`: true exactly when there are no segments, which is stronger than having no elements. */
    function IsEmpty(): (r: bool)
      requires Valid()
      reads this, Repr
      ensures r <==> Segs == []
      ensures r ==> Contents() == []
    {
      |segments| == 0
    }

    /** `segmentCount`. */
    function SegmentCount(): (r: int)
      requires Valid()
      reads this, Repr
      ensures r == |Segs|
    {
      |segments|
    }

    /** `aggregateForSegment`: the segment's aggregate, which covers that segment's elements. */
    function AggregateForSegment(segmentIndex: int): (a: StringAggregate)
      requires Valid() && 0 <= segmentIndex < |segments|
      reads this, Repr
      ensures a.characterCount == Total(Segs[segmentIndex])
    {
      segments[segmentIndex].aggregate
    }

    /** `aggregates`: every segment's aggregate, in segment order. */
    function Aggregates(): (r: seq<StringAggregate>)
      requires Valid()
      reads this, Repr
      ensures |r| == |Segs| && forall k :: 0 <= k < |r| ==> r[k].characterCount == Total(Segs[k])
    {
      seq(|segments|, k requires 0 <= k < |segments| reads this, segments => segments[k].aggregate)
    }

    /** `generate()`: a generator over the segments, which yields the contents in order. */
    method Generate() returns (g: NestedSequenceGenerator<string>)
      requires Valid()
      ensures fresh(g) && g.Remaining() == Contents()
    {
      var container := seq(|segments|, k requires 0 <= k < |segments| reads this, segments => segments[k].elements);
      assert container == Segs;
      g := new NestedSequenceGenerator(container);
    }

    /** The entry points at an element of the segment list. */
    ghost predicate Addresses(entry: SegmentedArrayEntry)
      reads this
    {
      0 <= entry.segmentIndex < |segments| && |segments| == |Segs| &&
      entry.segment == segments[entry.segmentIndex] && 0 <= entry.index < |Segs[entry.segmentIndex]|
    }

    /** `entry.element = newValue`, with `Segs` kept in step. */
    method SetThrough(entry: SegmentedArrayEntry, newValue: string)
      requires Valid() && Addresses(entry)
      modifies this, Repr
      ensures Valid() && segments == old(segments) && Repr == old(Repr)
      ensures Segs == old(Segs)[entry.segmentIndex := old(Segs)[entry.segmentIndex][entry.index := newValue]]
    {
      entry.SetElement(newValue);
      Segs := Segs[entry.segmentIndex := entry.segment.elements];
      forall m | 0 <= m < |segments| && m != entry.segmentIndex
        ensures segments[m].elements == Segs[m] && segments[m].Consistent()
      {
        assert segments[m] != entry.segment;
      }
    }

    /** `entry.segment.removeAtIndex(entry.index)`, with `Segs` kept in step. */
    method RemoveThrough(entry: SegmentedArrayEntry) returns (x: string)
      requires Valid() && Addresses(entry)
      modifies this, Repr
      ensures Valid() && segments == old(segments) && Repr == old(Repr)
      ensures var E := old(Segs)[entry.segmentIndex];
              x == E[entry.index] && Segs == old(Segs)[entry.segmentIndex := E[..entry.index] + E[entry.index + 1..]]
    {
      x := entry.segment.RemoveAtIndex(entry.index);
      Segs := Segs[entry.segmentIndex := entry.segment.elements];
      forall m | 0 <= m < |segments| && m != entry.segmentIndex
        ensures segments[m].elements == Segs[m] && segments[m].Consistent()
      {
        assert segments[m] != entry.segment;
      }
    }

    /** `entry.segment.insert(x, atIndex: entry.index)`, with `Segs` kept in step. */
    method InsertThrough(entry: SegmentedArrayEntry, x: string)
      requires Valid()
      requires 0 <= entry.segmentIndex < |segments| && entry.segment == segments[entry.segmentIndex]
      requires 0 <= entry.index <= |Segs[entry.segmentIndex]|
      modifies this, Repr
      ensures Valid() && segments == old(segments) && Repr == old(Repr)
      ensures var E := old(Segs)[entry.segmentIndex];
              Segs == old(Segs)[entry.segmentIndex := E[..entry.index] + [x] + E[entry.index..]]
      ensures old(Bounded()) && |old(Segs)[entry.segmentIndex]| < maxSegmentSize ==> Bounded()
    {
      entry.segment.Insert(x, entry.index);
      Segs := Segs[entry.segmentIndex := entry.segment.elements];
      forall m | 0 <= m < |segments| && m != entry.segmentIndex
        ensures segments[m].elements == Segs[m] && segments[m].Consistent()
      {
        assert segments[m] != entry.segment;
      }
      assert old(Bounded()) && |old(Segs)[entry.segmentIndex]| < maxSegmentSize ==> Bounded() by {
        if old(Bounded()) && |old(Segs)[entry.segmentIndex]| < maxSegmentSize {
          forall m | 0 <= m < |Segs|
            ensures |Segs[m]| <= maxSegmentSize
          {
            if m != entry.segmentIndex {
              assert Segs[m] == old(Segs)[m];
            }
          }
        }
      }
    }

    /** Position subscript, get: the element at `position`; nothing changes. */
    method Get(position: int) returns (x: string)
      requires Valid() && 0 <= position < |Contents()|
      modifies this, Repr
      ensures Valid() && segments == old(segments) && Segs == old(Segs) && Repr == old(Repr)
      ensures x == Contents()[position]
    {
      var entry := EntryForIndex(position, 0);
      x := entry.Element();
      ConcatAt(Segs, entry.segmentIndex, entry.index);
    }

    /**
     * Position subscript, set: through the entry's aggregate-maintaining
     * setter, so only `position` changes, no segment changes length and the
     * segment list stays the same.
     */
    method Set(position: int, newValue: string)
      requires Valid() && 0 <= position < |Contents()|
      modifies this, Repr
      ensures Valid() && segments == old(segments) && Repr == old(Repr)
      ensures Contents() == old(Contents())[position := newValue]
      ensures |Segs| == |old(Segs)| && forall k :: 0 <= k < |Segs| ==> |Segs[k]| == |old(Segs)[k]|
    {
      var entry := EntryForIndex(position, 0);
      UpdatedInSegment(Segs, entry.segmentIndex, entry.index, position, newValue);
      SetThrough(entry, newValue);
    }

    /** `removeAtIndex`: returns the element at `i` and removes it. */
    method RemoveAtIndex(i: int) returns (x: string)
      requires Valid() && 0 <= i < |Contents()|
      modifies this, Repr
      ensures Valid() && segments == old(segments) && Repr == old(Repr)
      ensures x == old(Contents())[i]
      ensures Contents() == old(Contents())[..i] + old(Contents())[i + 1..]
      ensures maxSegmentSize >= 0 && old(Bounded()) ==> Bounded()
    {
      var entry := EntryForIndex(i, 0);
      RemovedFromSegment(Segs, entry.segmentIndex, entry.index, i, maxSegmentSize);
      x := RemoveThrough(entry);
    }

    /**
     * `insert(_:atIndex:)`: the element lands at `i`, or at the end when `i`
     * is past it. The segment-size bound survives an insertion inside the
     * contents, but not one at the end, which grows the last segment.
     */
    method Insert(newElement: string, i: int)
      requires Valid() && 0 <= i
      modifies this, Repr
      ensures Valid()
      ensures var n := Min(i, |old(Contents())|);
              Contents() == old(Contents())[..n] + [newElement] + old(Contents())[n..]
      ensures maxSegmentSize >= 1 && old(Bounded()) && i < |old(Contents())| ==> Bounded()
      ensures fresh(Repr - old(Repr))
    {
      var entry := EntryForIndex(i, 1);
      ghost var located, k, at := Segs, entry.segmentIndex, entry.index;
      ghost var C, n := Concat(located), Offset(located, k) + at;
      assert C == old(Contents()) && n == Min(i, |C|);
      InsertThrough(entry, newElement);
      ConcatReplaceWithin(located, k, at, at, [newElement]);
      assert Contents() == C[..n] + [newElement] + C[n..];
    }

    /**
     * `extend`: the elements go at the end, in order; a new segment is opened
     * whenever the last one is full (and an empty one first when there are
     * no segments at all).
     */
    method Extend(newElements: seq<string>)
      requires Valid()
      modifies this, Repr
      ensures Valid() && Contents() == old(Contents()) + newElements
      ensures Segs == ExtendLayout(if old(|segments|) == 0 then [[]] else old(Segs), newElements, maxSegmentSize)
      ensures |segments| > 0
      ensures maxSegmentSize >= 1 && old(Bounded()) ==> Bounded()
      ensures fresh(Repr - old(Repr))
    {
      if |segments| == 0 {
        var s := InsertEmptySegment(0);
      }
      ghost var start := Segs;
      ExtendLast(newElements);
      ExtendedFrom(old(Segs), start, newElements, maxSegmentSize);
    }

    /** The loop of `extend`, once there is a last segment: one `ExtendOne` per element, in order. */
    method ExtendLast(newElements: seq<string>)
      requires Valid() && |segments| > 0
      modifies this, Repr
      ensures Valid() && |segments| > 0
      ensures Segs == ExtendLayout(old(Segs), newElements, maxSegmentSize)
      ensures fresh(Repr - old(Repr))
    {
      ghost var start := Segs;
      var lastSegment := segments[|segments| - 1];
      var n := 0;
      while n < |newElements|
        invariant 0 <= n <= |newElements|
        invariant Valid() && |segments| > 0 && lastSegment == segments[|segments| - 1]
        invariant Segs == ExtendLayout(start, newElements[..n], maxSegmentSize)
        invariant fresh(Repr - old(Repr))
      {
        lastSegment := ExtendOne(newElements[n], lastSegment);
        assert Segs == ExtendLayout(start, newElements[..n + 1], maxSegmentSize) by {
          assert newElements[..n + 1][..n] == newElements[..n];
        }
        n := n + 1;
      }
      assert newElements[..n] == newElements;
    }

    /** One pass of `extend`'s loop: a new last segment when the last one is full, then the element goes in it. */
    method ExtendOne(x: string, lastSegment: AggregateArray) returns (lastSegment': AggregateArray)
      requires Valid() && |segments| > 0 && lastSegment == segments[|segments| - 1]
      modifies this, Repr
      ensures Valid() && |segments| > 0 && lastSegment' == segments[|segments| - 1]
      ensures Segs == AppendLayout(old(Segs), x, maxSegmentSize)
      ensures Contents() == old(Contents()) + [x]
      ensures maxSegmentSize >= 1 && old(Bounded()) ==> Bounded()
      ensures fresh(Repr - old(Repr))
    {
      lastSegment' := lastSegment;
      if |lastSegment.elements| >= maxSegmentSize {
        lastSegment' := InsertEmptySegment(|segments|);
        assert old(segments)[|old(segments)|..] == [];
      }
      AppendToLastSegment(x);
    }

    /** `removeAll`: no segments left. */
    method RemoveAll()
      requires Valid()
      modifies this
      ensures Valid() && Segs == [] && Contents() == []
    {
      segments := [];
      Segs := [];
    }

    /** A piece names a stretch of one segment. */
    ghost predicate PieceIn(p: Piece)
      reads this
    {
      0 <= p.segmentIndex < |Segs| && 0 <= p.lo <= p.hi <= |Segs[p.segmentIndex]|
    }

    /** The elements the pieces cover, in order. */
    ghost function Gathered(pieces: seq<Piece>): seq<string>
      reads this
      requires forall n :: 0 <= n < |pieces| ==> PieceIn(pieces[n])
    {
      if |pieces| == 0 then []
      else
        var p := pieces[|pieces| - 1];
        assert PieceIn(p);
        Gathered(pieces[..|pieces| - 1]) + Segs[p.segmentIndex][p.lo..p.hi]
    }

    lemma GatheredAppend(pieces: seq<Piece>, p: Piece)
      requires forall n :: 0 <= n < |pieces| ==> PieceIn(pieces[n])
      requires PieceIn(p)
      ensures forall n :: 0 <= n < |pieces + [p]| ==> PieceIn((pieces + [p])[n])
      ensures Gathered(pieces + [p]) == Gathered(pieces) + Segs[p.segmentIndex][p.lo..p.hi]
    {
      assert (pieces + [p])[..|pieces|] == pieces;
    }

    /**
     * `segmentsForRange`: the stretches of the segments that make up
     * `lo..<hi` (clamped to the count), reported in segment order; in place
     * of the callback the pieces are returned.
     */
    method SegmentsForRange(lo: int, hi: int) returns (pieces: seq<Piece>)
      requires Valid() && 0 <= lo <= hi
      ensures forall n :: 0 <= n < |pieces| ==> PieceIn(pieces[n])
      ensures |pieces| > 0 ==> NumberedFrom(pieces, pieces[0].segmentIndex)
      ensures Gathered(pieces) == Window(Contents(), lo, hi)
    {
      var w := StartWalk(lo, hi);
      pieces := [];
      ghost var first := 0;
      var k := 0;
      while k < |segments|
        invariant Walking(w, pieces, first, k, lo, hi)
      {
        var done;
        w, pieces, first, done := WalkOne(w, pieces, first, k, lo, hi);
        if done {
          return;
        }
        k := k + 1;
      }
      assert Segs[..k] == Segs;
    }

    /**
     * Part way through `segmentsForRange`: the walk stands at segment `k`,
     * and the pieces so far, numbered from `first`, cover what the range
     * takes from the segments before it.
     */
    ghost predicate Walking(w: Walk, pieces: seq<Piece>, first: int, k: int, lo: int, hi: int)
      reads this
    {
      && 0 <= k <= |Segs| && 0 <= lo <= hi
      && WalkAt(w, lo, hi, Offset(Segs, k))
      && (forall n :: 0 <= n < |pieces| ==> PieceIn(pieces[n]))
      && NumberedFrom(pieces, first)
      && (w.inside ==> first + |pieces| == k)
      && (!w.inside ==> pieces == [])
      && Gathered(pieces) == Window(Concat(Segs[..k]), lo, hi)
    }

    /**
     * One pass of `segmentsForRange`'s loop over segment `k`: the walk
     * advances, the segment's stretch is reported when the range covers part
     * of it, and the walk is `done` once the range ends in this segment.
     */
    method WalkOne(w: Walk, pieces: seq<Piece>, ghost first: int, k: int, ghost lo: int, ghost hi: int)
      returns (w': Walk, pieces': seq<Piece>, ghost first': int, done: bool)
      requires Valid() && k < |segments| && Walking(w, pieces, first, k, lo, hi)
      ensures !done ==> Walking(w', pieces', first', k + 1, lo, hi)
      ensures done ==> Covers(pieces', lo, hi)
    {
      var c := |segments[k].elements|;
      WalkStep(w, pieces, first, k, lo, hi);
      first' := if w.inside then first else k;
      w' := Advance(w, c);
      pieces' := if w'.inside then pieces + [Stretch(w', k, c)] else pieces;
      done := w'.lastSegment;
    }

    /** The bookkeeping of one pass of `segmentsForRange`'s loop. */
    lemma WalkStep(w: Walk, pieces: seq<Piece>, first: int, k: int, lo: int, hi: int)
      requires k < |Segs| && Walking(w, pieces, first, k, lo, hi)
      ensures var c := |Segs[k]|;
              var w' := Advance(w, c);
              var first' := if w.inside then first else k;
              var pieces' := if w'.inside then pieces + [Stretch(w', k, c)] else pieces;
              && (!w'.lastSegment ==> Walking(w', pieces', first', k + 1, lo, hi))
              && (w'.lastSegment ==> w'.inside && Covers(pieces', lo, hi))
    {
      var c := |Segs[k]|;
      var P, S := Concat(Segs[..k]), Segs[k];
      assert Concat(Segs[..k + 1]) == P + S by {
        ConcatStep(Segs, k);
      }
      AdvanceStep(w, c, lo, hi, |P|);
      var first' := if w.inside then first else k;
      var w' := Advance(w, c);
      if w'.inside {
        var piece := Stretch(w', k, c);
        assert Window(P + S, lo, hi) == Gathered(pieces) + S[piece.lo..piece.hi] by {
          WindowPiece(P, S, lo, hi, piece.lo, piece.hi);
        }
        GatheredAppend(pieces, piece);
        NumberedAppend(pieces, first', piece);
        if w'.lastSegment {
          assert Window(Contents(), lo, hi) == Window(P + S, lo, hi) by {
            ConcatPrefix(Segs, k + 1);
            WindowPrefix(P + S, Concat(Segs[k + 1..]), lo, hi);
          }
        }
      } else {
        assert Window(P + S, lo, hi) == [];
      }
    }

    /** The pieces cover exactly `lo..<hi` of the contents, in consecutive segments. */
    ghost predicate Covers(pieces: seq<Piece>, lo: int, hi: int)
      reads this
    {
      && 0 <= lo <= hi
      && (forall n :: 0 <= n < |pieces| ==> PieceIn(pieces[n]))
      && |pieces| > 0 && NumberedFrom(pieces, pieces[0].segmentIndex)
      && Gathered(pieces) == Window(Contents(), lo, hi)
    }

    /** Range subscript, get: `lo..<hi` of the contents, clamped to the count. */
    method GetRange(lo: int, hi: int) returns (b: seq<string>)
      requires Valid() && 0 <= lo <= hi
      ensures b == Window(Contents(), lo, hi)
    {
      b := [];
      var pieces := SegmentsForRange(lo, hi);
      var n := 0;
      while n < |pieces|
        invariant 0 <= n <= |pieces|
        invariant b == Gathered(pieces[..n])
      {
        var p := pieces[n];
        var elements := segments[p.segmentIndex].elements;
        if p.hi - p.lo == |elements| {
          b := b + elements;
        } else {
          b := b + elements[p.lo..p.hi];
        }
        GatheredAppend(pieces[..n], p);
        assert pieces[..n + 1] == pieces[..n] + [p];
        n := n + 1;
      }
      assert pieces[..n] == pieces;
    }

    /**
     * The segments kept so far by `removeRange`'s filter: segments
     * `keptIdx` (in increasing order) with elements `keptSegs`.
     */
    ghost predicate Kept(kept: seq<AggregateArray>, keptSegs: seq<seq<string>>, keptIdx: seq<int>, k: int)
      reads this, kept
    {
      && |kept| == |keptSegs| == |keptIdx|
      && k <= |segments|
      && (forall n :: 0 <= n < |kept| ==> 0 <= keptIdx[n] < k && kept[n] == segments[keptIdx[n]])
      && (forall a, b :: 0 <= a < b < |kept| ==> keptIdx[a] < keptIdx[b])
      && (forall n :: 0 <= n < |kept| ==> kept[n].elements == keptSegs[n] && kept[n].Consistent())
    }

    /**
     * One step of `removeRange`'s filter, for a segment preceded by the
     * elements `P`: decides whether the segment stays and trims the part of
     * `lo..<hi` that falls in it.
     */
    static method TrimForRange(segment: AggregateArray, w: Walk, ghost lo: int, ghost hi: int, ghost P: seq<string>)
      returns (w': Walk, keep: bool)
      requires segment.Consistent() && 0 <= lo <= hi
      requires w.lastSegment ==> hi < |P|
      requires !w.lastSegment ==> WalkAt(w, lo, hi, |P|)
      modifies segment
      ensures segment.Consistent()
      ensures w'.lastSegment ==> hi < |P| + |old(segment.elements)|
      ensures !w'.lastSegment ==> WalkAt(w', lo, hi, |P| + |old(segment.elements)|)
      ensures Cut(P + old(segment.elements), lo, hi) == Cut(P, lo, hi) + (if keep then segment.elements else [])
      ensures keep ==> |segment.elements| <= |old(segment.elements)|
    {
      ghost var S := segment.elements;
      w', keep := w, true;
      if w.lastSegment {
        CutStep(P, S, lo, hi);
      } else {
        var c := |segment.elements|;
        TrimStep(P, S, w, lo, hi);
        w' := Advance(w, c);
        if w'.inside {
          // first and last: i..<j; first only: i..<count; last only: 0..<j; neither: dropped
          if w'.firstSegment || w'.lastSegment {
            segment.RemoveRange(if w'.firstSegment then w'.i else 0, if w'.lastSegment then w'.j else c);
          } else {
            keep := false;
          }
        }
      }
    }

    /** The filter's bookkeeping survives keeping segment `k`. */
    lemma KeptAppend(kept: seq<AggregateArray>, keptSegs: seq<seq<string>>, keptIdx: seq<int>, k: int)
      requires Kept(kept, keptSegs, keptIdx, k + 1) && 0 <= k < |segments|
      requires forall n :: 0 <= n < |keptIdx| ==> keptIdx[n] < k
      requires segments[k].Consistent()
      ensures Kept(kept + [segments[k]], keptSegs + [segments[k].elements], keptIdx + [k], k + 1)
    {
    }

    /**
     * `removeRange`: removes `lo..<hi` (clamped to the count). Segments the
     * range covers entirely are dropped, the ones it starts or ends in are
     * trimmed (and kept even when they become empty), the others are kept as
     * they are.
     */
    method RemoveRange(lo: int, hi: int)
      requires Valid() && 0 <= lo <= hi
      modifies this, Repr
      ensures Valid() && Contents() == Cut(old(Contents()), lo, hi)
      ensures |segments| <= old(|segments|) && Repr == old(Repr)
      ensures maxSegmentSize >= 0 && old(Bounded()) ==> Bounded()
    {
      ghost var bounded := maxSegmentSize >= 0 && Bounded();
      var w, kept, keptSegs, keptIdx := FilterAll(lo, hi, bounded);
      KeptIsValid(w, kept, keptSegs, keptIdx, lo, hi, bounded);
      AdoptKept(kept, keptSegs, lo, hi, bounded);
    }

    /** `removeRange`'s filter over every segment; the array's own fields are left for `AdoptKept`. */
    method FilterAll(lo: int, hi: int, ghost bounded: bool)
      returns (w: Walk, kept: seq<AggregateArray>, ghost keptSegs: seq<seq<string>>, ghost keptIdx: seq<int>)
      requires Valid() && 0 <= lo <= hi && (bounded ==> 0 <= maxSegmentSize && Bounded())
      modifies Repr
      ensures Filtering(w, kept, keptSegs, keptIdx, |segments|, lo, hi, bounded)
    {
      w, kept, keptSegs, keptIdx := StartFilter(lo, hi, bounded);
      w, kept, keptSegs, keptIdx := FilterFrom(w, kept, keptSegs, keptIdx, 0, lo, hi, bounded);
    }

    /**
     * The filter's closure applied to segments `k`, `k + 1`, ... in turn,
     * threading its captured state (the walk and what is kept so far).
     */
    method FilterFrom(w: Walk, kept: seq<AggregateArray>, ghost keptSegs: seq<seq<string>>, ghost keptIdx: seq<int>,
                      k: int, ghost lo: int, ghost hi: int, ghost bounded: bool)
      returns (w': Walk, kept': seq<AggregateArray>, ghost keptSegs': seq<seq<string>>, ghost keptIdx': seq<int>)
      requires Filtering(w, kept, keptSegs, keptIdx, k, lo, hi, bounded)
      requires bounded ==> Bounded()
      modifies Repr
      ensures Filtering(w', kept', keptSegs', keptIdx', |segments|, lo, hi, bounded)
      decreases |segments| - k
    {
      if k == |segments| {
        return w, kept, keptSegs, keptIdx;
      }
      w', kept', keptSegs', keptIdx' := FilterStep(w, kept, keptSegs, keptIdx, k, lo, hi, bounded);
      w', kept', keptSegs', keptIdx' := FilterFrom(w', kept', keptSegs', keptIdx', k + 1, lo, hi, bounded);
    }

    /**
     * The state of `removeRange`'s filter after `k` segments: the segments
     * from `k` on are untouched, the kept ones hold the first `k` segments'
     * elements minus the range, and the walk stands at the `k`-th segment.
     */
    ghost predicate Filtering(w: Walk, kept: seq<AggregateArray>, keptSegs: seq<seq<string>>, keptIdx: seq<int>,
                              k: int, lo: int, hi: int, bounded: bool)
      reads this, Repr, kept
    {
      && 0 <= k <= |segments| && 0 <= lo <= hi
      && |Segs| == |segments| && (forall m :: 0 <= m < |segments| ==> segments[m] in Repr)
      && (forall a, b :: 0 <= a < b < |segments| ==> segments[a] != segments[b])
      && (forall m :: k <= m < |segments| ==> segments[m].elements == Segs[m] && segments[m].Consistent())
      && Kept(kept, keptSegs, keptIdx, k) && |kept| <= k
      && (w.lastSegment ==> hi < Offset(Segs, k))
      && (!w.lastSegment ==> WalkAt(w, lo, hi, Offset(Segs, k)))
      && Concat(keptSegs) == Cut(Concat(Segs[..k]), lo, hi)
      && (bounded ==> 0 <= maxSegmentSize && forall n :: 0 <= n < |keptSegs| ==> |keptSegs[n]| <= maxSegmentSize)
    }

    /** The start of `removeRange`'s filter: nothing kept, the walk before the first segment. */
    method StartFilter(lo: int, hi: int, ghost bounded: bool)
      returns (w: Walk, kept: seq<AggregateArray>, ghost keptSegs: seq<seq<string>>, ghost keptIdx: seq<int>)
      requires Valid() && 0 <= lo <= hi && (bounded ==> 0 <= maxSegmentSize)
      ensures Filtering(w, kept, keptSegs, keptIdx, 0, lo, hi, bounded)
    {
      w := StartWalk(lo, hi);
      kept, keptSegs, keptIdx := [], [], [];
    }

    /** One iteration of `removeRange`'s filter: segment `k` is trimmed, then kept or dropped. */
    method FilterStep(w: Walk, kept: seq<AggregateArray>, ghost keptSegs: seq<seq<string>>, ghost keptIdx: seq<int>,
                      k: int, ghost lo: int, ghost hi: int, ghost bounded: bool)
      returns (w': Walk, kept': seq<AggregateArray>, ghost keptSegs': seq<seq<string>>, ghost keptIdx': seq<int>)
      requires Filtering(w, kept, keptSegs, keptIdx, k, lo, hi, bounded) && k < |segments|
      requires bounded ==> Bounded()
      modifies segments[k]
      ensures Filtering(w', kept', keptSegs', keptIdx', k + 1, lo, hi, bounded)
    {
      var segment := segments[k];
      ghost var P := Concat(Segs[..k]);
      var keep;
      w', keep := TrimForRange(segment, w, lo, hi, P);
      forall m | k < m < |segments|
        ensures segments[m].elements == Segs[m] && segments[m].Consistent()
      {
        assert segments[m] != segment;
      }
      assert Kept(kept, keptSegs, keptIdx, k + 1) by {
        forall n | 0 <= n < |kept|
          ensures kept[n].elements == keptSegs[n] && kept[n].Consistent()
        {
          assert kept[n] != segment;
        }
      }
      assert Trimmed(w', kept, keptSegs, keptIdx, k, lo, hi, bounded, keep);
      if keep {
        FilterKeep(w', kept, keptSegs, keptIdx, k, lo, hi, bounded);
        kept', keptSegs', keptIdx' := kept + [segment], keptSegs + [segment.elements], keptIdx + [k];
      } else {
        FilterDrop(w', kept, keptSegs, keptIdx, k, lo, hi, bounded);
        kept', keptSegs', keptIdx' := kept, keptSegs, keptIdx;
      }
    }

    /**
     * What the trimming step leaves for segment `k`: the segments after it
     * untouched, the kept ones unharmed, and the cut of the elements before
     * it grown by the segment's new elements when it stays.
     */
    ghost predicate Trimmed(w': Walk, kept: seq<AggregateArray>, keptSegs: seq<seq<string>>, keptIdx: seq<int>,
                            k: int, lo: int, hi: int, bounded: bool, keep: bool)
      reads this, Repr, kept
    {
      && 0 <= k < |segments| && 0 <= lo <= hi
      && |Segs| == |segments| && (forall m :: 0 <= m < |segments| ==> segments[m] in Repr)
      && (forall a, b :: 0 <= a < b < |segments| ==> segments[a] != segments[b])
      && (forall m :: k < m < |segments| ==> segments[m].elements == Segs[m] && segments[m].Consistent())
      && segments[k].Consistent()
      && Kept(kept, keptSegs, keptIdx, k + 1) && |kept| <= k
      && (forall n :: 0 <= n < |keptIdx| ==> keptIdx[n] < k)
      && (var P := Concat(Segs[..k]);
          && (w'.lastSegment ==> hi < |P| + |Segs[k]|)
          && (!w'.lastSegment ==> WalkAt(w', lo, hi, |P| + |Segs[k]|))
          && Concat(keptSegs) == Cut(P, lo, hi)
          && Cut(P + Segs[k], lo, hi) == Cut(P, lo, hi) + (if keep then segments[k].elements else []))
      && (keep ==> |segments[k].elements| <= |Segs[k]|)
      && (bounded ==> 0 <= maxSegmentSize && |Segs[k]| <= maxSegmentSize)
      && (bounded ==> forall n :: 0 <= n < |keptSegs| ==> |keptSegs[n]| <= maxSegmentSize)
    }

    /** The filter's state after keeping segment `k`. */
    lemma FilterKeep(w': Walk, kept: seq<AggregateArray>, keptSegs: seq<seq<string>>, keptIdx: seq<int>,
                     k: int, lo: int, hi: int, bounded: bool)
      requires Trimmed(w', kept, keptSegs, keptIdx, k, lo, hi, bounded, true)
      ensures Filtering(w', kept + [segments[k]], keptSegs + [segments[k].elements], keptIdx + [k], k + 1, lo, hi, bounded)
    {
      FilterCut(Segs, k, keptSegs, segments[k].elements, true, lo, hi, w');
      KeptAppend(kept, keptSegs, keptIdx, k);
    }

    /** The filter's state after dropping segment `k`. */
    lemma FilterDrop(w': Walk, kept: seq<AggregateArray>, keptSegs: seq<seq<string>>, keptIdx: seq<int>,
                     k: int, lo: int, hi: int, bounded: bool)
      requires Trimmed(w', kept, keptSegs, keptIdx, k, lo, hi, bounded, false)
      ensures Filtering(w', kept, keptSegs, keptIdx, k + 1, lo, hi, bounded)
    {
      FilterCut(Segs, k, keptSegs, segments[k].elements, false, lo, hi, w');
    }

    /** The end of `removeRange`: the kept segments become the segment list. */
    method AdoptKept(kept: seq<AggregateArray>, ghost keptSegs: seq<seq<string>>, ghost lo: int, ghost hi: int, ghost bounded: bool)
      requires |keptSegs| == |kept| <= |segments|
      requires forall k :: 0 <= k < |kept| ==> kept[k] in Repr
      requires forall k :: 0 <= k < |kept| ==> kept[k].elements == keptSegs[k] && kept[k].Consistent()
      requires forall a, b :: 0 <= a < b < |kept| ==> kept[a] != kept[b]
      requires 0 <= lo <= hi && Concat(keptSegs) == Cut(Concat(Segs), lo, hi)
      requires bounded ==> 0 <= maxSegmentSize && forall n :: 0 <= n < |keptSegs| ==> |keptSegs[n]| <= maxSegmentSize
      modifies this
      ensures Valid() && segments == kept && Segs == keptSegs && Repr == old(Repr)
      ensures |segments| <= old(|segments|)
      ensures Contents() == Cut(old(Contents()), lo, hi)
      ensures bounded ==> Bounded()
    {
      segments := kept;
      Segs := keptSegs;
    }

    /** What the finished filter leaves is fit to become the segment list: owned, mirrored, consistent and distinct. */
    lemma KeptIsValid(w: Walk, kept: seq<AggregateArray>, keptSegs: seq<seq<string>>, keptIdx: seq<int>,
                      lo: int, hi: int, bounded: bool)
      requires Filtering(w, kept, keptSegs, keptIdx, |segments|, lo, hi, bounded)
      ensures |keptSegs| == |kept| <= |segments|
      ensures forall k :: 0 <= k < |kept| ==> kept[k] in Repr
      ensures forall k :: 0 <= k < |kept| ==> kept[k].elements == keptSegs[k] && kept[k].Consistent()
      ensures forall a, b :: 0 <= a < b < |kept| ==> kept[a] != kept[b]
      ensures Concat(keptSegs) == Cut(Concat(Segs), lo, hi)
      ensures bounded ==> 0 <= maxSegmentSize && forall n :: 0 <= n < |keptSegs| ==> |keptSegs[n]| <= maxSegmentSize
    {
      assert Segs[..|segments|] == Segs;
      forall a, b | 0 <= a < b < |kept|
        ensures kept[a] != kept[b]
      {
        assert keptIdx[a] < keptIdx[b];
      }
    }

    /**
     * `splice(_:atIndex:)`: the elements land at `i`, or at the end when `i`
     * is past it. The entry is located with room for all of them; once its
     * segment is full a new segment is opened after it. The segment-size
     * bound survives. Inside the contents, when a segment can hold all the
     * new elements, the only segments added are those `entryForIndex` adds.
     */
    method Splice(newElements: seq<string>, i: int)
      requires Valid() && 0 <= i
      modifies this, Repr
      ensures Valid()
      ensures var n := Min(i, |old(Contents())|);
              Contents() == old(Contents())[..n] + newElements + old(Contents())[n..]
      ensures maxSegmentSize >= 1 && old(Bounded()) ==> Bounded()
      ensures forall k, j :: Locates(old(Segs), i, k, j) && |newElements| <= maxSegmentSize ==>
              |segments| == old(|segments|) +
                            SegmentsAdded(|old(Segs)[k]|, j, if |newElements| > 1 then |newElements| else 1, maxSegmentSize)
      ensures fresh(Repr - old(Repr))
    {
      ghost var bounded := maxSegmentSize >= 1 && Bounded();
      var load := if |newElements| > 1 then |newElements| else 1;
      var entry := EntryForIndex(i, load);
      ghost var C := old(Contents());
      ghost var p := Min(i, |C|);
      // Inside the contents, a load the segment size can take finds room at once, so no segment is opened later.
      ghost var grown := |segments|;
      ghost var roomy := |Segs[entry.segmentIndex]| + |newElements| <= maxSegmentSize;
      forall k, j | Locates(old(Segs), i, k, j) && |newElements| <= maxSegmentSize
        ensures roomy && grown == old(|segments|) + SegmentsAdded(|old(Segs)[k]|, j, load, maxSegmentSize)
      {
        LocatesInside(old(Segs), i, k, j);
      }
      SpliceEnds(C, p, newElements);
      var n := 0;
      while n < |newElements|
        invariant 0 <= n <= |newElements|
        invariant Splicing(entry, C, p, newElements, n, bounded)
        invariant roomy ==> |segments| == grown && |Segs[entry.segmentIndex]| + (|newElements| - n) <= maxSegmentSize
        invariant fresh(Repr - old(Repr))
      {
        entry := SpliceOne(entry, newElements[n], C, p, newElements, n, bounded);
        n := n + 1;
      }
    }

    /**
     * The state of `splice` after `n` of the new elements: they stand at
     * `p`, and the entry addresses the position right after them with room
     * in its segment for the rest (unless it is at the segment's end).
     */
    ghost predicate Splicing(entry: SegmentedArrayEntry, C: seq<string>, p: int, xs: seq<string>, n: int, bounded: bool)
      reads this, Repr
    {
      && Valid()
      && 0 <= entry.segmentIndex < |segments| && entry.segment == segments[entry.segmentIndex]
      && 0 <= entry.index <= |Segs[entry.segmentIndex]|
      && 0 <= p <= |C| && 0 <= n <= |xs|
      && Offset(Segs, entry.segmentIndex) + entry.index == p + n
      && Contents() == C[..p] + xs[..n] + C[p..]
      && (entry.index == |Segs[entry.segmentIndex]| || |Segs[entry.segmentIndex]| + (|xs| - n) <= maxSegmentSize)
      && (bounded ==> 1 <= maxSegmentSize && Bounded())
    }

    /** One element of `splice`: a new segment is opened when the entry's is full, then `xs[n]` goes in. */
    method SpliceOne(entry: SegmentedArrayEntry, x: string, ghost C: seq<string>, ghost p: int, ghost xs: seq<string>,
                     ghost n: int, ghost bounded: bool) returns (entry': SegmentedArrayEntry)
      requires Splicing(entry, C, p, xs, n, bounded) && n < |xs| && x == xs[n]
      modifies this, Repr
      ensures Splicing(entry', C, p, xs, n + 1, bounded)
      ensures old(|Segs[entry.segmentIndex]|) + (|xs| - n) <= maxSegmentSize ==>
              |segments| == old(|segments|) && |Segs[entry'.segmentIndex]| + (|xs| - n - 1) <= maxSegmentSize
      ensures fresh(Repr - old(Repr))
    {
      entry' := entry;
      if entry.index >= maxSegmentSize {
        var s := OpenSegmentAfter(entry);
        entry' := SegmentedArrayEntry(s, entry.segmentIndex + 1, 0);
      }
      ghost var before := Segs;
      InsertThrough(entry', x);
      assert Contents() == C[..p] + xs[..n + 1] + C[p..] by {
        ConcatReplaceWithin(before, entry'.segmentIndex, entry'.index, entry'.index, [x]);
        SpliceStep(C, p, xs, n);
      }
      assert Segs[..entry'.segmentIndex] == before[..entry'.segmentIndex];
      entry' := entry'.(index := entry'.index + 1);
    }

    /**
     * The new-segment step of `splice`: the entry stands at the end of its
     * segment, and a fresh empty segment goes right after it.
     */
    method OpenSegmentAfter(entry: SegmentedArrayEntry) returns (s: AggregateArray)
      requires Valid()
      requires 0 <= entry.segmentIndex < |segments| && entry.index == |Segs[entry.segmentIndex]|
      modifies this
      ensures Valid() && Contents() == old(Contents())
      ensures entry.segmentIndex + 1 < |segments| && segments[entry.segmentIndex + 1] == s
      ensures Segs[entry.segmentIndex + 1] == []
      ensures Offset(Segs, entry.segmentIndex + 1) == Offset(old(Segs), entry.segmentIndex) + entry.index
      ensures maxSegmentSize >= 0 && old(Bounded()) ==> Bounded()
      ensures fresh(Repr - old(Repr))
    {
      s := InsertEmptySegment(entry.segmentIndex + 1);
      ConcatStep(old(Segs), entry.segmentIndex);
    }

    /** `replaceRange`, and the range subscript's setter: `RemoveRange`, then `Splice` at the range's start. */
    method ReplaceRange(lo: int, hi: int, newElements: seq<string>) returns (ghost removed: seq<seq<string>>)
      requires Valid() && 0 <= lo <= hi
      modifies this, Repr
      ensures Valid()
      ensures var C := old(Contents());
              Contents() == C[..Min(lo, |C|)] + newElements + C[Min(hi, |C|)..]
      ensures maxSegmentSize >= 1 && old(Bounded()) ==> Bounded()
      ensures |removed| <= old(|segments|) && Concat(removed) == Cut(old(Contents()), lo, hi)
      ensures forall k, j :: Locates(removed, lo, k, j) && |newElements| <= maxSegmentSize ==>
              |segments| == |removed| +
                            SegmentsAdded(|removed[k]|, j, if |newElements| > 1 then |newElements| else 1, maxSegmentSize)
      ensures fresh(Repr - old(Repr))
    {
      ghost var C := Contents();
      RemoveRange(lo, hi);
      removed := Segs;
      ghost var C1 := Contents();
      assert C1[..Min(lo, |C1|)] == C[..Min(lo, |C|)] && C1[Min(lo, |C1|)..] == C[Min(hi, |C|)..];
      Splice(newElements, lo);
    }

    /**
     * `description`: the elements between brackets, each printed with a
     * trailing newline and separated by ", ", read segment by segment; "[]"
     * when there are no segments.
     */
    method Description() returns (desc: string)
      requires Valid()
      ensures desc == "[" + Join(Contents()) + "]"
      ensures |Contents()| > 0 ==> |desc| == Total(Contents()) + 3 * |Contents()|
      ensures |Contents()| == 0 ==> desc == "[]"
    {
      if |segments| == 0 {
        return "[]";
      }
      desc := "[";
      ghost var done: seq<string> := [];
      var index := 0;
      var k := 0;
      while k < |segments|
        invariant 0 <= k <= |segments|
        invariant done == Concat(Segs[..k]) && index == |done|
        invariant desc == "[" + Join(done)
      {
        desc, index := DescribeElements(desc, index, segments[k].elements, done);
        done := done + segments[k].elements;
        ConcatStep(Segs, k);
        k := k + 1;
      }
      assert Segs[..k] == Segs;
      desc := desc + "]";
      if |done| > 0 {
        JoinLength(done);
      }
    }
  }
  /**
   * The tests' `sum(b.aggregates) { $0.characterCount }`: the per-segment
   * character counts add up to the character count of the whole contents.
   */
  method CharacterCount(a: SegmentedArray) returns (n: int)
    requires a.Valid()
    ensures n == Total(a.Contents())
  {
    var aggregates := a.Aggregates();
    var block := (g: StringAggregate) => g.characterCount;
    n := SumMapped(aggregates, block);
    SumOfSegmentCounts(a.Segs, Mapped(aggregates, block));
  }

  /** `testRemoveRange`: "0"..."15" in segments of 4, then `removeRange(1...14)`. */
  method RemoveRangeScenario() returns (r: seq<string>)
    ensures r == ["0", "15"]
  {
    var b := new SegmentedArray.FromSequence(["0", "1", "2", "3", "4", "5", "6", "7",
                                              "8", "9", "10", "11", "12", "13", "14", "15"], 4);
    b.RemoveRange(1, 15);
    var count := b.Count();
    r := b.GetRange(0, count);
  }

  /**
   * `testSplice`: four elements spliced in before the last of four; eight
   * characters in all, and segments of four cannot hold them in one.
   */
  method SpliceScenario() returns (r: seq<string>, characters: int, segmentCount: int)
    ensures r == ["1", "2", "4", "6", "7", "8", "9", "5"] && |r| == 8 && characters == 8
    ensures segmentCount >= 2
  {
    var b, _, _, _ := FourInOneSegment();
    b.Splice(["6", "7", "8", "9"], 3);
    assert b.Contents() == ["1", "2", "4", "6", "7", "8", "9", "5"];
    var count := b.Count();
    r := b.GetRange(0, count);
    assert r == b.Contents();
    characters := CharacterCount(b);
    TotalOfSingles(r);
    segmentCount := b.SegmentCount();
    ConcatWithin(b.Segs, 4);
  }

  /** `description` of ["a", "b"]: each element is followed by the newline `print` writes. */
  method DescriptionScenario() returns (desc: string)
    ensures desc == "[a\n, b\n]"
  {
    var b := new SegmentedArray.FromSequence(["a", "b"], 4);
    desc := b.Description();
    assert ["a", "b"][..1] == ["a"];
  }

  /**
   * The start of `testSplice` and `testReplaceRange`: ["1", "2", "4", "5"]
   * in segments of 4 is four elements in one segment of four characters.
   */
  method FourInOneSegment() returns (b: SegmentedArray, count: int, segmentCount: int, characters: int)
    ensures fresh(b) && fresh(b.Repr) && b.Valid() && b.maxSegmentSize == 4
    ensures b.Segs == [["1", "2", "4", "5"]] && b.Contents() == ["1", "2", "4", "5"]
    ensures count == 4 && segmentCount == 1 && characters == 4
  {
    b := new SegmentedArray.FromSequence(["1", "2", "4", "5"], 4);
    count := b.Count();
    segmentCount := b.SegmentCount();
    assert b.Segs == [b.Segs[0]];
    ConcatSingle(b.Segs[0]);
    characters := b.AggregateForSegment(0).characterCount;
    TotalOfSingles(b.Segs[0]);
  }

  /**
   * `testGenerator`'s layout, built by `extend`: eight one-character
   * elements fill one segment of eight, and a ninth opens a second segment
   * holding one character.
   */
  method ExtendScenario() returns (countAfterEight: int, segmentsAfterEight: int, count: int, segmentCount: int,
                                   firstCharacters: int, secondCharacters: int)
    ensures countAfterEight == 8 && segmentsAfterEight == 1
    ensures count == 9 && segmentCount == 2 && firstCharacters == 8 && secondCharacters == 1
  {
    var eight := ["1", "2", "3", "4", "5", "6", "7", "8"];
    ExtendedEightThenNine(eight);
    var b;
    b, countAfterEight, segmentsAfterEight := EightInOneSegment(eight);
    b.Extend(["9"]);
    count := b.Count();
    segmentCount := b.SegmentCount();
    firstCharacters := b.AggregateForSegment(0).characterCount;
    secondCharacters := b.AggregateForSegment(1).characterCount;
  }

  /** The first half of `ExtendScenario`: eight elements extended into an empty array with segments of eight. */
  method EightInOneSegment(eight: seq<string>) returns (b: SegmentedArray, count: int, segmentCount: int)
    requires eight == ["1", "2", "3", "4", "5", "6", "7", "8"]
    ensures fresh(b) && fresh(b.Repr) && b.Valid() && b.maxSegmentSize == 8 && b.Segs == [eight]
    ensures count == 8 && segmentCount == 1
  {
    ExtendedEightThenNine(eight);
    b := new SegmentedArray.WithMaxSegmentSize(8);
    b.Extend(eight);
    count := b.Count();
    segmentCount := b.SegmentCount();
  }

  /** The layouts and characters of `ExtendScenario`'s two steps. */
  lemma ExtendedEightThenNine(eight: seq<string>)
    requires eight == ["1", "2", "3", "4", "5", "6", "7", "8"]
    ensures ExtendLayout([[]], eight, 8) == [eight] && Concat([eight]) == eight
    ensures ExtendLayout([eight], ["9"], 8) == [eight, ["9"]]
    ensures Total(eight) == 8 && Total(["9"]) == 1
  {
    ExtendLayoutFits(eight, 8);
    ConcatSingle(eight);
    ExtendLayoutSingle([eight], "9", 8);
    TotalOfSingles(eight);
    TotalOfSingles(["9"]);
  }

  /**
   * `testReplaceRange`: `b[1...2] = ["2b", "3", "4b"]` leaves five elements
   * and seven characters in two segments: removing 1...2 leaves ["1", "5"]
   * in one segment, which has no room for three more, so it is split at 1
   * and the half ["5"] takes them.
   */
  method ReplaceRangeScenario() returns (r: seq<string>, characters: int, segmentCount: int)
    ensures r == ["1", "2b", "3", "4b", "5"] && |r| == 5 && characters == 7
    ensures segmentCount == 2
  {
    var b, _, _, _ := FourInOneSegment();
    ghost var removed := b.ReplaceRange(1, 3, ["2b", "3", "4b"]);
    assert Concat(removed) == ["1", "5"];
    assert removed == [removed[0]];
    ConcatSingle(removed[0]);
    assert Locates(removed, 1, 0, 1);
    segmentCount := b.SegmentCount();
    assert b.Contents() == ["1", "2b", "3", "4b", "5"];
    var count := b.Count();
    r := b.GetRange(0, count);
    assert r == b.Contents();
    characters := CharacterCount(b);
    ReplacedCharacters(r);
  }

  /** The replaced contents hold 1 + 2 + 1 + 2 + 1 characters. */
  lemma ReplacedCharacters(r: seq<string>)
    requires r == ["1", "2b", "3", "4b", "5"]
    ensures Total(r) == 7
  {
    assert Total(r[..1]) == 1 by { assert r[..1][..0] == []; }
    assert Total(r[..2]) == 3 by { assert r[..2][..1] == r[..1]; }
    assert Total(r[..3]) == 4 by { assert r[..3][..2] == r[..2]; }
    assert Total(r[..4]) == 6 by { assert r[..4][..3] == r[..3]; }
    assert r[..5] == r;
  }
}
