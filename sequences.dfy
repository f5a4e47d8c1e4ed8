/**
 * The sequence operations of Swift's `ContiguousArray` that the array classes
 * delegate to, stated once here, and the concatenation of a list of segments.
 */
module Sequences {

  /** The smaller of two integers: positions past the end clamp to the end. */
  function Min(a: int, b: int): int { if a <= b then a else b }

  /** `xs` inserted before position `i` (`splice(_:atIndex:)`). */
  function Splice<T>(s: seq<T>, xs: seq<T>, i: int): (r: seq<T>)
    requires 0 <= i <= |s|
    ensures |r| == |s| + |xs|
    ensures forall k :: 0 <= k < i ==> r[k] == s[k]
    ensures forall k :: 0 <= k < |xs| ==> r[i + k] == xs[k]
    ensures forall k :: i <= k < |s| ==> r[k + |xs|] == s[k]
  {
    s[..i] + xs + s[i..]
  }

  /** One element inserted before position `i` (`insert(_:atIndex:)`). */
  function Insert<T>(s: seq<T>, i: int, x: T): (r: seq<T>)
    requires 0 <= i <= |s|
    ensures |r| == |s| + 1 && r[i] == x
    ensures forall k :: 0 <= k < i ==> r[k] == s[k]
    ensures forall k :: i <= k < |s| ==> r[k + 1] == s[k]
  {
    s[..i] + [x] + s[i..]
  }

  /** The element at `i` removed (`removeAtIndex`). */
  function RemoveAt<T>(s: seq<T>, i: int): (r: seq<T>)
    requires 0 <= i < |s|
    ensures |r| == |s| - 1
    ensures forall k :: 0 <= k < i ==> r[k] == s[k]
    ensures forall k :: i < k < |s| ==> r[k - 1] == s[k]
  {
    s[..i] + s[i + 1..]
  }

  /** The elements of `lo..<hi` removed (`removeRange`). */
  function RemoveRange<T>(s: seq<T>, lo: int, hi: int): (r: seq<T>)
    requires 0 <= lo <= hi <= |s|
    ensures |r| == |s| - (hi - lo)
    ensures forall k :: 0 <= k < lo ==> r[k] == s[k]
    ensures forall k :: hi <= k < |s| ==> r[k - (hi - lo)] == s[k]
  {
    s[..lo] + s[hi..]
  }

  /** The elements of `lo..<hi` replaced by `xs` (`replaceRange`). */
  function ReplaceRange<T>(s: seq<T>, lo: int, hi: int, xs: seq<T>): (r: seq<T>)
    requires 0 <= lo <= hi <= |s|
    ensures |r| == |s| - (hi - lo) + |xs|
    ensures forall k :: 0 <= k < lo ==> r[k] == s[k]
    ensures forall k :: 0 <= k < |xs| ==> r[lo + k] == xs[k]
    ensures forall k :: hi <= k < |s| ==> r[k - (hi - lo) + |xs|] == s[k]
  {
    s[..lo] + xs + s[hi..]
  }

  /** Replacing a range is removing it and splicing the new elements in at its start. */
  lemma ReplaceIsRemoveThenSplice<T>(s: seq<T>, lo: int, hi: int, xs: seq<T>)
    requires 0 <= lo <= hi <= |s|
    ensures ReplaceRange(s, lo, hi, xs) == Splice(RemoveRange(s, lo, hi), xs, lo)
  {
    assert RemoveRange(s, lo, hi)[..lo] == s[..lo];
    assert RemoveRange(s, lo, hi)[lo..] == s[hi..];
  }

  /** Removing the element just inserted gives back the original sequence. */
  lemma RemoveAtUndoesInsert<T>(s: seq<T>, i: int, x: T)
    requires 0 <= i <= |s|
    ensures RemoveAt(Insert(s, i, x), i) == s
  {
    var t := Insert(s, i, x);
    assert t[..i] == s[..i];
    assert t[i + 1..] == s[i..];
    assert s == s[..i] + s[i..];
  }

  /** The segments concatenated in order, as a left fold. */
  function Concat<T>(ss: seq<seq<T>>): seq<T>
  {
    if |ss| == 0 then [] else Concat(ss[..|ss| - 1]) + ss[|ss| - 1]
  }

  /** Segments of at most `max` elements each hold at most `max` elements per segment in all. */
  lemma {:induction false} ConcatWithin<T>(ss: seq<seq<T>>, max: int)
    requires forall k :: 0 <= k < |ss| ==> |ss[k]| <= max
    ensures |Concat(ss)| <= max * |ss|
  {
    if |ss| > 0 {
      ConcatWithin(ss[..|ss| - 1], max);
    }
  }

  /** Where segment `k` starts in the concatenation. */
  function Offset<T>(ss: seq<seq<T>>, k: int): nat
    requires 0 <= k <= |ss|
  {
    |Concat(ss[..k])|
  }

  /** Position `i` of the concatenation is element `j` of segment `k`. */
  ghost predicate Locates<T>(ss: seq<seq<T>>, i: int, k: int, j: int)
  {
    0 <= k < |ss| && 0 <= j < |ss[k]| && Offset(ss, k) + j == i
  }

  /** A later segment starts no earlier, and past the end of every earlier one. */
  lemma OffsetAfter<T>(ss: seq<seq<T>>, k: int, m: int)
    requires 0 <= k < m <= |ss|
    ensures Offset(ss, m) >= Offset(ss, k) + |ss[k]|
  {
    ConcatStep(ss, k);
    ConcatPrefix(ss[..m], k + 1);
    assert ss[..m][..k + 1] == ss[..k + 1];
  }

  /** Every position of the concatenation lies in one segment only, at one place. */
  lemma LocatesUnique<T>(ss: seq<seq<T>>, i: int, k: int, j: int, k': int, j': int)
    requires Locates(ss, i, k, j) && Locates(ss, i, k', j')
    ensures k == k' && j == j'
  {
    if k < k' {
      OffsetAfter(ss, k, k');
    } else if k' < k {
      OffsetAfter(ss, k', k);
    }
  }

  /** A located position lies inside the concatenation. */
  lemma LocatesInside<T>(ss: seq<seq<T>>, i: int, k: int, j: int)
    requires Locates(ss, i, k, j)
    ensures 0 <= i < |Concat(ss)|
  {
    OffsetAfter(ss, k, |ss|);
    assert ss[..|ss|] == ss;
  }

  lemma {:induction false} ConcatAppend<T>(a: seq<seq<T>>, b: seq<seq<T>>)
    ensures Concat(a + b) == Concat(a) + Concat(b)
  {
    if |b| == 0 {
      assert a + b == a;
    } else {
      ConcatAppend(a, b[..|b| - 1]);
      assert (a + b)[..|a + b| - 1] == a + b[..|b| - 1];
    }
  }

  lemma ConcatSingle<T>(t: seq<T>)
    ensures Concat([t]) == t
  {
    assert [t][..0] == [];
  }

  /** The concatenation of the first `k + 1` segments extends that of the first `k` by segment `k`. */
  lemma ConcatStep<T>(ss: seq<seq<T>>, k: int)
    requires 0 <= k < |ss|
    ensures Concat(ss[..k + 1]) == Concat(ss[..k]) + ss[k]
  {
    assert ss[..k + 1][..k] == ss[..k];
  }

  /** The concatenation of a prefix of the segments is a prefix of the whole concatenation. */
  lemma ConcatPrefix<T>(ss: seq<seq<T>>, k: int)
    requires 0 <= k <= |ss|
    ensures Concat(ss) == Concat(ss[..k]) + Concat(ss[k..])
  {
    assert ss == ss[..k] + ss[k..];
    ConcatAppend(ss[..k], ss[k..]);
  }

  lemma ConcatSplit<T>(ss: seq<seq<T>>, k: int)
    requires 0 <= k < |ss|
    ensures Concat(ss) == Concat(ss[..k]) + ss[k] + Concat(ss[k + 1..])
  {
    ConcatPrefix(ss, k);
    ConcatFirst(ss[k..]);
    assert ss[k..][1..] == ss[k + 1..];
  }

  lemma ConcatFirst<T>(ss: seq<seq<T>>)
    requires |ss| > 0
    ensures Concat(ss) == ss[0] + Concat(ss[1..])
  {
    assert ss == [ss[0]] + ss[1..];
    ConcatCons(ss[0], ss[1..]);
  }

  lemma ConcatCons<T>(t: seq<T>, rest: seq<seq<T>>)
    ensures Concat([t] + rest) == t + Concat(rest)
  {
    ConcatAppend([t], rest);
    ConcatSingle(t);
  }

  /** Element `i` of segment `k` sits at `Offset(ss, k) + i` of the concatenation. */
  lemma ConcatAt<T>(ss: seq<seq<T>>, k: int, i: int)
    requires 0 <= k < |ss| && 0 <= i < |ss[k]|
    ensures Offset(ss, k) + i < |Concat(ss)|
    ensures Concat(ss)[Offset(ss, k) + i] == ss[k][i]
  {
    ConcatSplit(ss, k);
  }

  /** Replacing segment `k` replaces its part of the concatenation. */
  lemma ConcatUpdate<T>(ss: seq<seq<T>>, k: int, t: seq<T>)
    requires 0 <= k < |ss|
    ensures Concat(ss[k := t]) == Concat(ss[..k]) + t + Concat(ss[k + 1..])
    ensures Concat(ss) == Concat(ss[..k]) + ss[k] + Concat(ss[k + 1..])
  {
    ConcatSplit(ss, k);
    ConcatSplit(ss[k := t], k);
    assert ss[k := t][..k] == ss[..k];
    assert ss[k := t][k + 1..] == ss[k + 1..];
  }

  /** Inserting a segment at position `k` inserts its elements at `Offset(ss, k)`. */
  lemma ConcatInsert<T>(ss: seq<seq<T>>, k: int, t: seq<T>)
    requires 0 <= k <= |ss|
    ensures Concat(ss[..k] + [t] + ss[k..]) == Concat(ss[..k]) + t + Concat(ss[k..])
  {
    ConcatAppend(ss[..k] + [t], ss[k..]);
    ConcatAppend(ss[..k], [t]);
    ConcatSingle(t);
  }

  /** Segments with no elements contribute nothing. */
  lemma ConcatEmptySegment<T>(ss: seq<seq<T>>)
    requires forall k :: 0 <= k < |ss| ==> ss[k] == []
    ensures Concat(ss) == []
  {
    if |ss| > 0 {
      ConcatEmptySegment(ss[..|ss| - 1]);
    }
  }

  /**
   * Replacing `ss[k][a..b]` by `xs` inside segment `k` replaces the matching
   * stretch of the concatenation, which starts at `Offset(ss, k) + a`.
   */
  lemma ConcatReplaceWithin<T>(ss: seq<seq<T>>, k: int, a: int, b: int, xs: seq<T>)
    requires 0 <= k < |ss| && 0 <= a <= b <= |ss[k]|
    ensures Offset(ss, k) + b <= |Concat(ss)|
    ensures Concat(ss[k := ss[k][..a] + xs + ss[k][b..]]) ==
            Concat(ss)[..Offset(ss, k) + a] + xs + Concat(ss)[Offset(ss, k) + b..]
  {
    ConcatUpdate(ss, k, ss[k][..a] + xs + ss[k][b..]);
    ReplaceInMiddle(Concat(ss[..k]), ss[k], Concat(ss[k + 1..]), a, b, xs);
  }

  lemma ReplaceInMiddle<T>(A: seq<T>, S: seq<T>, B: seq<T>, a: int, b: int, xs: seq<T>)
    requires 0 <= a <= b <= |S|
    ensures A + (S[..a] + xs + S[b..]) + B == (A + S + B)[..|A| + a] + xs + (A + S + B)[|A| + b..]
  {
    var C := A + S + B;
    assert C[..|A| + a] == A + S[..a];
    assert C[|A| + b..] == S[b..] + B;
  }

  /**
   * Cutting segment `k` at `i` into two adjacent segments leaves the
   * concatenation unchanged; the second half starts at `Offset(ss, k) + i`.
   */
  lemma ConcatSplitSegment<T>(ss: seq<seq<T>>, k: int, i: int)
    requires 0 <= k < |ss| && 0 <= i <= |ss[k]|
    ensures var t := ss[k := ss[k][..i]];
            Concat(t[..k + 1] + [ss[k][i..]] + t[k + 1..]) == Concat(ss) &&
            |Concat(t[..k + 1])| == Offset(ss, k) + i
  {
    var t := ss[k := ss[k][..i]];
    ConcatInsert(t, k + 1, ss[k][i..]);
    ConcatStep(t, k);
    assert t[..k] == ss[..k];
    assert t[k + 1..] == ss[k + 1..];
    ConcatSplit(ss, k);
    assert ss[k][..i] + ss[k][i..] == ss[k];
  }

  /** The stretch `lo..<hi` of `s`, with both ends clamped to `|s|`. */
  function Window<T>(s: seq<T>, lo: int, hi: int): seq<T>
    requires 0 <= lo <= hi
  {
    s[Min(lo, |s|)..Min(hi, |s|)]
  }

  /** `s` without the stretch `lo..<hi`, with both ends clamped to `|s|`. */
  function Cut<T>(s: seq<T>, lo: int, hi: int): seq<T>
    requires 0 <= lo <= hi
  {
    s[..Min(lo, |s|)] + s[Min(hi, |s|)..]
  }

  /** How a window grows when the sequence it is taken from grows by `S`. */
  lemma WindowStep<T>(P: seq<T>, S: seq<T>, lo: int, hi: int)
    requires 0 <= lo <= hi
    ensures lo >= |P| + |S| ==> Window(P + S, lo, hi) == []
    ensures |P| <= lo < |P| + |S| ==> Window(P + S, lo, hi) == S[lo - |P|..Min(hi - |P|, |S|)]
    ensures lo < |P| <= hi ==>
            Window(P + S, lo, hi) == Window(P, lo, hi) + S[..Min(hi - |P|, |S|)]
  {
    if lo < |P| <= hi {
      assert Window(P, lo, hi) == P[lo..];
      assert (P + S)[lo..Min(hi, |P| + |S|)] == P[lo..] + S[..Min(hi - |P|, |S|)];
    }
  }

  /** A window that ends inside a prefix of `C` is that prefix's window. */
  lemma WindowPrefix<T>(P: seq<T>, R: seq<T>, lo: int, hi: int)
    requires 0 <= lo <= hi <= |P|
    ensures Window(P + R, lo, hi) == Window(P, lo, hi)
  {
  }

  /** How a cut changes when the sequence it is taken from grows by `S`. */
  lemma CutStep<T>(P: seq<T>, S: seq<T>, lo: int, hi: int)
    requires 0 <= lo <= hi
    ensures lo >= |P| + |S| ==> Cut(P + S, lo, hi) == Cut(P, lo, hi) + S
    ensures |P| <= lo < |P| + |S| ==>
            Cut(P + S, lo, hi) == Cut(P, lo, hi) + (S[..lo - |P|] + S[Min(hi - |P|, |S|)..])
    ensures lo < |P| && hi >= |P| + |S| ==> Cut(P + S, lo, hi) == Cut(P, lo, hi)
    ensures lo < |P| <= hi < |P| + |S| ==> Cut(P + S, lo, hi) == Cut(P, lo, hi) + S[hi - |P|..]
    ensures hi < |P| ==> Cut(P + S, lo, hi) == Cut(P, lo, hi) + S
  {
    var n := |P|;
    if lo >= n {
      CutStepBefore(P, S, lo, hi);
    } else {
      CutStepAfter(P, S, lo, hi);
    }
  }

  /** `CutStep` when the cut starts at or after the end of `P`. */
  lemma CutStepBefore<T>(P: seq<T>, S: seq<T>, lo: int, hi: int)
    requires |P| <= lo <= hi
    ensures lo >= |P| + |S| ==> Cut(P + S, lo, hi) == Cut(P, lo, hi) + S
    ensures lo < |P| + |S| ==> Cut(P + S, lo, hi) == Cut(P, lo, hi) + (S[..lo - |P|] + S[Min(hi - |P|, |S|)..])
  {
    var n, t := |P|, P + S;
    assert Cut(P, lo, hi) == P by {
      assert P[..n] == P && P[n..] == [];
    }
    if lo >= n + |S| {
      assert t[..|t|] == t && t[|t|..] == [];
    } else {
      var m := Min(hi - n, |S|);
      assert Min(lo, |t|) == lo && Min(hi, |t|) == n + m;
      assert t[..lo] == P + S[..lo - n];
      assert t[n + m..] == S[m..];
    }
  }

  /** `CutStep` when the cut starts inside `P`. */
  lemma CutStepAfter<T>(P: seq<T>, S: seq<T>, lo: int, hi: int)
    requires 0 <= lo < |P| && lo <= hi
    ensures hi >= |P| + |S| ==> Cut(P + S, lo, hi) == Cut(P, lo, hi)
    ensures |P| <= hi < |P| + |S| ==> Cut(P + S, lo, hi) == Cut(P, lo, hi) + S[hi - |P|..]
    ensures hi < |P| ==> Cut(P + S, lo, hi) == Cut(P, lo, hi) + S
  {
    var n := |P|;
    assert (P + S)[..lo] == P[..lo];
    if hi >= n + |S| {
      assert Cut(P + S, lo, hi) == P[..lo];
      assert Cut(P, lo, hi) == P[..lo];
    } else if n <= hi {
      assert (P + S)[hi..] == S[hi - n..];
      assert Cut(P, lo, hi) == P[..lo];
    } else {
      assert (P + S)[hi..] == P[hi..] + S;
    }
  }

  /** Updating one slot replaces the one-element stretch there. */
  lemma UpdateIsReplace<T>(s: seq<T>, i: int, x: T)
    requires 0 <= i < |s|
    ensures s[i := x] == s[..i] + [x] + s[i + 1..]
  {
    assert s[i := x] == s[..i] + [x] + s[i + 1..];
  }

  /** One more element of `xs` spliced in at `p + n` extends the splice by that element. */
  lemma SpliceStep<T>(C: seq<T>, p: int, xs: seq<T>, n: int)
    requires 0 <= p <= |C| && 0 <= n < |xs|
    ensures var X := C[..p] + xs[..n] + C[p..];
            p + n <= |X| && X[..p + n] + [xs[n]] + X[p + n..] == C[..p] + xs[..n + 1] + C[p..]
  {
    var X := C[..p] + xs[..n] + C[p..];
    assert X[..p + n] == C[..p] + xs[..n];
    assert X[p + n..] == C[p..];
    assert xs[..n + 1] == xs[..n] + [xs[n]];
  }

  /** Dropping the last element of `a + b` drops the last of `b`. */
  lemma AppendButLast<T>(a: seq<T>, b: seq<T>)
    requires |b| > 0
    ensures var ab := a + b;
            ab[..|ab| - 1] == a + b[..|b| - 1] && ab[|ab| - 1] == b[|b| - 1]
  {
  }

  /** Before the first new element the sequence is unchanged; after the last, all of them stand at `p`. */
  lemma SpliceEnds<T>(C: seq<T>, p: int, xs: seq<T>)
    requires 0 <= p <= |C|
    ensures C[..p] + xs[..0] + C[p..] == C
    ensures xs[..|xs|] == xs
  {
    assert C == C[..p] + C[p..];
  }

  /**
   * A window grows by the stretch `S[a..b]` of the next part `S` when it
   * starts inside `S` or started earlier and has not ended yet.
   */
  lemma WindowPiece<T>(P: seq<T>, S: seq<T>, lo: int, hi: int, a: int, b: int)
    requires 0 <= lo <= hi
    requires (|P| <= lo < |P| + |S| && a == lo - |P|) || (lo < |P| <= hi && a == 0)
    requires b == Min(hi - |P|, |S|)
    ensures 0 <= a <= b <= |S|
    ensures Window(P + S, lo, hi) == Window(P, lo, hi) + S[a..b]
  {
    WindowStep(P, S, lo, hi);
  }
}
