/**
  The lazy segment tree: arrays `d` (sums) and `b` (deferred range-add tags), both indexed as a
  heap, against the plain array they stand for.
 */
module SegmentTree {

  // ---- The plain array -------------------------------------------------------------------

  ghost function Sum(xs: seq<int>): int {
    if xs == [] then 0 else xs[0] + Sum(xs[1..])
  }

  /** Every element grows by c. */
  ghost function AddAll(xs: seq<int>, c: int): (ys: seq<int>)
    ensures |ys| == |xs| && forall i :: 0 <= i < |xs| ==> ys[i] == xs[i] + c
  {
    if xs == [] then [] else [xs[0] + c] + AddAll(xs[1..], c)
  }

  /** `xs` holds the elements at s, s+1, ...; those whose position lies in [l, r] grow by c. */
  ghost function RangeAdd(xs: seq<int>, s: int, l: int, r: int, c: int): (ys: seq<int>)
    ensures |ys| == |xs|
    ensures forall i :: 0 <= i < |xs| ==> ys[i] == if l <= s + i <= r then xs[i] + c else xs[i]
  {
    if xs == [] then []
    else [if l <= s <= r then xs[0] + c else xs[0]] + RangeAdd(xs[1..], s + 1, l, r, c)
  }

  /** The sum of the elements whose position lies in [l, r]. */
  ghost function RangeSum(xs: seq<int>, s: int, l: int, r: int): int {
    if xs == [] then 0
    else (if l <= s <= r then xs[0] else 0) + RangeSum(xs[1..], s + 1, l, r)
  }

  lemma {:induction false} SumConcat(xs: seq<int>, ys: seq<int>)
    ensures Sum(xs + ys) == Sum(xs) + Sum(ys)
  {
    if xs == [] {
      assert xs + ys == ys;
    } else {
      assert (xs + ys)[1..] == xs[1..] + ys;
      SumConcat(xs[1..], ys);
    }
  }

  lemma {:induction false} SumAddAll(xs: seq<int>, c: int)
    ensures Sum(AddAll(xs, c)) == Sum(xs) + c * |xs|
  {
    if xs == [] {
    } else {
      var rest := xs[1..];
      assert AddAll(xs, c)[1..] == AddAll(rest, c);
      SumAddAll(rest, c);
      MulSucc(c, |rest|);
    }
  }

  lemma MulSucc(c: int, n: int)
    ensures c * (n + 1) == c * n + c
  {
  }

  lemma SliceSplits(xs: seq<int>, i: nat, j: nat, k: nat)
    requires i <= j <= k <= |xs|
    ensures xs[i..k] == xs[i..j] + xs[j..k]
  {
  }

  lemma AddTwice(xs: seq<int>, x: int, y: int)
    ensures AddAll(AddAll(xs, x), y) == AddAll(xs, x + y)
  {
    var once, twice, both := AddAll(xs, x), AddAll(AddAll(xs, x), y), AddAll(xs, x + y);
    forall i | 0 <= i < |xs|
      ensures twice[i] == both[i]
    {
      assert twice[i] == once[i] + y;
    }
  }

  lemma AddConcat(xs: seq<int>, ys: seq<int>, c: int)
    ensures AddAll(xs + ys, c) == AddAll(xs, c) + AddAll(ys, c)
  {
  }

  lemma {:induction false} RangeSumConcat(xs: seq<int>, ys: seq<int>, s: int, l: int, r: int)
    ensures RangeSum(xs + ys, s, l, r) == RangeSum(xs, s, l, r) + RangeSum(ys, s + |xs|, l, r)
  {
    if xs == [] {
      assert xs + ys == ys;
    } else {
      assert (xs + ys)[1..] == xs[1..] + ys;
      RangeSumConcat(xs[1..], ys, s + 1, l, r);
    }
  }

  lemma {:induction false} RangeSumCovered(xs: seq<int>, s: int, l: int, r: int)
    requires l <= s && s + |xs| - 1 <= r
    ensures RangeSum(xs, s, l, r) == Sum(xs)
  {
    if xs == [] {
    } else {
      RangeSumCovered(xs[1..], s + 1, l, r);
    }
  }

  lemma {:induction false} RangeSumDisjoint(xs: seq<int>, s: int, l: int, r: int)
    requires r < s || s + |xs| <= l
    ensures RangeSum(xs, s, l, r) == 0
  {
    if xs == [] {
    } else {
      RangeSumDisjoint(xs[1..], s + 1, l, r);
    }
  }

  lemma RangeAddConcat(xs: seq<int>, ys: seq<int>, s: int, l: int, r: int, c: int)
    ensures RangeAdd(xs + ys, s, l, r, c) == RangeAdd(xs, s, l, r, c) + RangeAdd(ys, s + |xs|, l, r, c)
  {
    hide RangeAdd;
    var both, first, second := RangeAdd(xs + ys, s, l, r, c), RangeAdd(xs, s, l, r, c), RangeAdd(ys, s + |xs|, l, r, c);
    forall i | 0 <= i < |xs| + |ys|
      ensures both[i] == (first + second)[i]
    {
    }
  }

  lemma RangeAddCovered(xs: seq<int>, s: int, l: int, r: int, c: int)
    requires l <= s && s + |xs| - 1 <= r
    ensures RangeAdd(xs, s, l, r, c) == AddAll(xs, c)
  {
  }

  lemma RangeAddDisjoint(xs: seq<int>, s: int, l: int, r: int, c: int)
    requires r < s || s + |xs| <= l
    ensures RangeAdd(xs, s, l, r, c) == xs
  {
  }

  // ---- Heap numbering --------------------------------------------------------------------

  function Mid(s: int, t: int): (m: int)
    requires s <= t
    ensures s <= m <= t && (s < t ==> m < t)
  {
    s + (t - s) / 2
  }

  /** Every node number reached from node p over [s, t] is below `limit`. */
  ghost predicate Fits(s: int, t: int, p: nat, limit: nat)
    requires s <= t
    decreases t - s
  {
    && 1 <= p < limit
    && (s < t ==> Fits(s, Mid(s, t), 2 * p, limit) && Fits(Mid(s, t) + 1, t, 2 * p + 1, limit))
  }

  lemma InnerFits(s: int, t: int, p: nat, limit: nat)
    requires s < t && Fits(s, t, p, limit)
    ensures Fits(s, Mid(s, t), 2 * p, limit) && Fits(Mid(s, t) + 1, t, 2 * p + 1, limit)
    ensures 2 * p + 1 < limit
  {
  }

  /** The number of slots below one node over `len` elements, were every level full. */
  ghost function Span(len: nat): nat
    requires 1 <= len
  {
    if len == 1 then 1 else 2 * Span((len + 1) / 2)
  }

  lemma {:induction false} SpanMonotone(a: nat, b: nat)
    requires 1 <= a <= b
    ensures 1 <= Span(a) <= Span(b)
  {
    if b <= 1 {
    } else {
      SpanMonotone(if a == 1 then 1 else (a + 1) / 2, (b + 1) / 2);
    }
  }

  lemma {:induction false} SpanBound(len: nat)
    requires 1 <= len
    ensures len == 1 ==> Span(len) == 1
    ensures len >= 2 ==> Span(len) <= 2 * (len - 1)
  {
    if len <= 2 {
    } else {
      SpanBound((len + 1) / 2);
    }
  }

  lemma {:induction false} FitsBySpan(s: int, t: int, p: nat, limit: nat)
    requires s <= t && 1 <= p
    requires (p + 1) * Span(t - s + 1) <= limit
    ensures Fits(s, t, p, limit)
    decreases t - s
  {
    var len, m := t - s + 1, Mid(s, t);
    SpanMonotone(1, len);
    MulMonotone(p + 1, 1, Span(len));
    if s == t {
    } else {
      var half := (len + 1) / 2;
      assert m - s + 1 == half && t - m <= half;
      SpanMonotone(t - m, half);
      HalfSpans(p, Span(half), Span(t - m));
      FitsBySpan(s, m, 2 * p, limit);
      FitsBySpan(m + 1, t, 2 * p + 1, limit);
    }
  }

  lemma HalfSpans(p: nat, half: int, rest: int)
    requires 0 <= rest <= half
    ensures (2 * p + 1) * half <= (p + 1) * (2 * half) && (2 * p + 2) * rest <= (p + 1) * (2 * half)
  {
    MulMonotone(half, 2 * p + 1, 2 * p + 2);
    MulMonotone(2 * p + 2, rest, half);
  }

  lemma MulMonotone(k: nat, x: int, y: int)
    requires x <= y
    ensures k * x <= k * y && x * k <= y * k
  {
  }

  /** Arrays of 4n slots hold every node of a tree over n elements rooted at 1. */
  lemma RootFits(s: int, t: int, limit: nat)
    requires s <= t && 4 * (t - s + 1) <= limit
    ensures Fits(s, t, 1, limit)
  {
    SpanBound(t - s + 1);
    FitsBySpan(s, t, 1, limit);
  }

  /** Node q lies in the subtree of node p. */
  ghost predicate Under(q: nat, p: nat)
    requires 1 <= p
  {
    q == p || (q > p && Under(q / 2, p))
  }

  lemma {:induction false} UnderChildren(q: nat, p: nat)
    requires 1 <= p
    ensures Under(q, 2 * p) || Under(q, 2 * p + 1) ==> Under(q, p) && q > p
    ensures !(Under(q, 2 * p) && Under(q, 2 * p + 1))
  {
    if q > 2 * p + 1 {
      UnderChildren(q / 2, p);
    } else if q == 2 * p || q == 2 * p + 1 {
      assert q / 2 == p && Under(q / 2, p);
    }
  }

  lemma Subtrees(p: nat)
    requires 1 <= p
    ensures forall q: nat :: Under(q, 2 * p) || Under(q, 2 * p + 1) ==> Under(q, p) && q > p
    ensures forall q: nat :: !(Under(q, 2 * p) && Under(q, 2 * p + 1))
  {
    forall q: nat
      ensures Under(q, 2 * p) || Under(q, 2 * p + 1) ==> Under(q, p) && q > p
      ensures !(Under(q, 2 * p) && Under(q, 2 * p + 1))
    {
      UnderChildren(q, p);
    }
  }

  // Most lemmas below have nothing to prove by induction; `{:induction false}` keeps Dafny from trying.

  // ---- What the two arrays stand for -----------------------------------------------------

  /** A subtree as read off the arrays: the sum at each node and the tag at each inner one. */
  datatype View = Leaf(sum: int) | Node(sum: int, tag: int, left: View, right: View)

  ghost function Read(d: seq<int>, b: seq<int>, s: int, t: int, p: nat): View
    requires s <= t && |b| == |d| && Fits(s, t, p, |d|)
    decreases t - s
  {
    if s == t then Leaf(d[p])
    else Node(d[p], b[p], Read(d, b, s, Mid(s, t), 2 * p), Read(d, b, Mid(s, t) + 1, t, 2 * p + 1))
  }

  ghost function Left(d: seq<int>, b: seq<int>, s: int, t: int, p: nat): View
    requires s < t && |b| == |d| && Fits(s, t, p, |d|)
  {
    Read(d, b, s, Mid(s, t), 2 * p)
  }

  ghost function Right(d: seq<int>, b: seq<int>, s: int, t: int, p: nat): View
    requires s < t && |b| == |d| && Fits(s, t, p, |d|)
  {
    Read(d, b, Mid(s, t) + 1, t, 2 * p + 1)
  }

  /** The elements a view stands for: a tag applies to everything below its node. */
  ghost function Elements(v: View): seq<int> {
    match v
    case Leaf(x) => [x]
    case Node(_, tag, left, right) => AddAll(Elements(left) + Elements(right), tag)
  }

  /** Every node holds the sum of the elements below it. */
  ghost predicate Consistent(v: View) {
    && v.sum == Sum(Elements(v))
    && (v.Node? ==> Consistent(v.left) && Consistent(v.right))
  }

  lemma LeafElements(x: int)
    ensures Consistent(Leaf(x)) && Elements(Leaf(x)) == [x]
  {
  }

  ghost function Tagged(v: View, c: int): View {
    match v
    case Leaf(x) => Leaf(x + c)
    case Node(x, tag, left, right) => Node(x + c * |Elements(v)|, tag + c, left, right)
  }

  /** Tagging a node with c adds c to every element below it. */
  lemma TaggedElements(v: View, c: int)
    requires Consistent(v)
    ensures Consistent(Tagged(v, c)) && Elements(Tagged(v, c)) == AddAll(Elements(v), c)
  {
    hide Sum, AddAll;
    SumAddAll(Elements(v), c);
    match v
    case Leaf(x) => assert AddAll([x], c) == [x + c];
    case Node(_, tag, left, right) => AddTwice(Elements(left) + Elements(right), tag, c);
  }

  /** Moving a tag from a node to its children changes no element. */
  lemma PushedElements(v: View)
    requires v.Node? && Consistent(v)
    ensures var l, r := Tagged(v.left, v.tag), Tagged(v.right, v.tag);
            Consistent(l) && Consistent(r) && Elements(v) == Elements(l) + Elements(r)
  {
    TaggedElements(v.left, v.tag);
    TaggedElements(v.right, v.tag);
    AddConcat(Elements(v.left), Elements(v.right), v.tag);
  }

  lemma UntaggedElements(v: View)
    requires v.Node? && v.tag == 0
    ensures Elements(v) == Elements(v.left) + Elements(v.right)
  {
  }

  /** An untagged node over consistent children joins them. */
  lemma JoinedElements(left: View, right: View)
    requires Consistent(left) && Consistent(right)
    ensures var v := Node(left.sum + right.sum, 0, left, right);
            Consistent(v) && Elements(v) == Elements(left) + Elements(right)
  {
    SumConcat(Elements(left), Elements(right));
    assert AddAll(Elements(left) + Elements(right), 0) == Elements(left) + Elements(right);
  }

  /** Nothing outside the subtree of p differs. */
  ghost predicate OnlyUnder(d: seq<int>, b: seq<int>, d': seq<int>, b': seq<int>, p: nat)
    requires 1 <= p && |d| == |b| == |d'| == |b'|
  {
    forall q: nat :: q < |d| && !Under(q, p) ==> d[q] == d'[q] && b[q] == b'[q]
  }

  /** Nothing inside the subtree of p differs. */
  ghost predicate AgreeUnder(d: seq<int>, b: seq<int>, d': seq<int>, b': seq<int>, p: nat)
    requires 1 <= p && |d| == |b| == |d'| == |b'|
  {
    forall q: nat :: q < |d| && Under(q, p) ==> d[q] == d'[q] && b[q] == b'[q]
  }

  lemma {:induction false} AgreeChildren(d: seq<int>, b: seq<int>, d': seq<int>, b': seq<int>, p: nat)
    requires 1 <= p < |d| == |b| == |d'| == |b'| && AgreeUnder(d, b, d', b', p)
    ensures d[p] == d'[p] && b[p] == b'[p]
    ensures AgreeUnder(d, b, d', b', 2 * p) && AgreeUnder(d, b, d', b', 2 * p + 1)
  {
    assert Under(p, p);
    Subtrees(p);
  }

  /** A view depends on its subtree's slots alone. */
  lemma {:induction false} Frame(d: seq<int>, b: seq<int>, d': seq<int>, b': seq<int>,
                                 s: int, t: int, p: nat)
    requires s <= t && |d| == |b| == |d'| == |b'| && Fits(s, t, p, |d|)
    requires AgreeUnder(d, b, d', b', p)
    ensures Read(d, b, s, t, p) == Read(d', b', s, t, p)
    decreases t - s
  {
    AgreeChildren(d, b, d', b', p);
    if s == t {
    } else {
      Frame(d, b, d', b', s, Mid(s, t), 2 * p);
      Frame(d, b, d', b', Mid(s, t) + 1, t, 2 * p + 1);
    }
  }

  /** A change under one child is a change under p that misses p and the other child. */
  lemma {:induction false} ChildChange(d: seq<int>, b: seq<int>, d': seq<int>, b': seq<int>, p: nat, q: nat)
    requires 1 <= p && |d| == |b| == |d'| == |b'| && 2 * p + 1 < |d|
    requires q == 2 * p || q == 2 * p + 1
    requires OnlyUnder(d, b, d', b', q)
    ensures OnlyUnder(d, b, d', b', p) && d[p] == d'[p] && b[p] == b'[p]
    ensures AgreeUnder(d, b, d', b', 4 * p + 1 - q)
  {
    Subtrees(p);
  }

  lemma {:induction false} OnlyUnderRefl(d: seq<int>, b: seq<int>, p: nat)
    requires 1 <= p && |d| == |b|
    ensures OnlyUnder(d, b, d, b, p)
  {
  }

  lemma {:induction false} OnlyUnderTwice(d: seq<int>, b: seq<int>, d1: seq<int>, b1: seq<int>,
                                          d2: seq<int>, b2: seq<int>, p: nat)
    requires 1 <= p && |d| == |b| == |d1| == |b1| == |d2| == |b2|
    requires OnlyUnder(d, b, d1, b1, p) && OnlyUnder(d1, b1, d2, b2, p)
    ensures OnlyUnder(d, b, d2, b2, p)
  {
  }

  /** Writing node p alone misses both children. */
  lemma {:induction false} NodeChange(d: seq<int>, b: seq<int>, d': seq<int>, b': seq<int>, p: nat)
    requires 1 <= p && |d| == |b| == |d'| == |b'|
    requires forall q: nat :: q < |d| && q != p ==> d[q] == d'[q] && b[q] == b'[q]
    ensures OnlyUnder(d, b, d', b', p)
    ensures AgreeUnder(d, b, d', b', 2 * p) && AgreeUnder(d, b, d', b', 2 * p + 1)
  {
    Subtrees(p);
  }

  ghost predicate Untagged(b: seq<int>, p: nat)
    requires 1 <= p
  {
    forall q: nat :: q < |b| && Under(q, p) ==> b[q] == 0
  }

  lemma UntaggedChildren(b: seq<int>, p: nat)
    requires 1 <= p < |b| && Untagged(b, p)
    ensures b[p] == 0 && Untagged(b, 2 * p) && Untagged(b, 2 * p + 1)
  {
    Subtrees(p);
    assert Under(p, p);
  }

  /** Writing node p replaces the top of its view. */
  lemma {:induction false} WriteNode(d: seq<int>, b: seq<int>, d': seq<int>, b': seq<int>,
                                     s: int, t: int, p: nat, x: int, tag: int)
    requires s <= t && |d| == |b| && Fits(s, t, p, |d|)
    requires d' == d[p := x] && b' == b[p := tag]
    ensures OnlyUnder(d, b, d', b', p)
    ensures Read(d', b', s, t, p) ==
            if s == t then Leaf(x)
            else Node(x, tag, Left(d, b, s, t, p), Right(d, b, s, t, p))
  {
    hide Under, OnlyUnder, AgreeUnder;
    NodeChange(d, b, d', b', p);
    if s < t {
      Frame(d, b, d', b', s, Mid(s, t), 2 * p);
      Frame(d, b, d', b', Mid(s, t) + 1, t, 2 * p + 1);
    }
  }

  /** Changing the left child, then the right one, leaves p and the one not being changed. */
  lemma {:induction false} ChangeBoth(d0: seq<int>, b0: seq<int>, d1: seq<int>, b1: seq<int>,
                                      d2: seq<int>, b2: seq<int>, s: int, t: int, p: nat)
    requires |d0| == |b0| == |d1| == |b1| == |d2| == |b2| && s < t && Fits(s, t, p, |d0|) && 2 * p + 1 < |d0|
    requires OnlyUnder(d0, b0, d1, b1, 2 * p) && OnlyUnder(d1, b1, d2, b2, 2 * p + 1)
    ensures OnlyUnder(d0, b0, d2, b2, p) && b2[p] == b0[p]
    ensures Right(d1, b1, s, t, p) == Right(d0, b0, s, t, p) && Left(d2, b2, s, t, p) == Left(d1, b1, s, t, p)
  {
    hide Under, OnlyUnder, AgreeUnder, Read;
    ChildChange(d0, b0, d1, b1, p, 2 * p);
    ChildChange(d1, b1, d2, b2, p, 2 * p + 1);
    OnlyUnderTwice(d0, b0, d1, b1, d2, b2, p);
    Frame(d0, b0, d1, b1, Mid(s, t) + 1, t, 2 * p + 1);
    Frame(d1, b1, d2, b2, s, Mid(s, t), 2 * p);
  }

  /** Changing the left child, then the right one, then summing both into an untagged p. */
  lemma {:induction false} Rejoin(d0: seq<int>, b0: seq<int>, d1: seq<int>, b1: seq<int>,
                                  d2: seq<int>, b2: seq<int>, d3: seq<int>, s: int, t: int, p: nat)
    requires |d0| == |b0| == |d1| == |b1| == |d2| == |b2| && s < t && Fits(s, t, p, |d0|) && 2 * p + 1 < |d0|
    requires OnlyUnder(d0, b0, d1, b1, 2 * p) && OnlyUnder(d1, b1, d2, b2, 2 * p + 1)
    requires b0[p] == 0 && d3 == d2[p := d2[2 * p] + d2[2 * p + 1]]
    requires Consistent(Left(d1, b1, s, t, p)) && Consistent(Right(d2, b2, s, t, p))
    ensures Right(d1, b1, s, t, p) == Right(d0, b0, s, t, p)
    ensures OnlyUnder(d0, b0, d3, b2, p) && Consistent(Read(d3, b2, s, t, p))
    ensures Elements(Read(d3, b2, s, t, p)) == Elements(Left(d1, b1, s, t, p)) + Elements(Right(d2, b2, s, t, p))
  {
    hide Under, OnlyUnder, AgreeUnder, Elements, Consistent, Sum, AddAll;
    ChangeBoth(d0, b0, d1, b1, d2, b2, s, t, p);
    WriteNode(d2, b2, d3, b2, s, t, p, d2[2 * p] + d2[2 * p + 1], 0);
    OnlyUnderTwice(d0, b0, d2, b2, d3, b2, p);
    JoinedElements(Left(d2, b2, s, t, p), Right(d2, b2, s, t, p));
  }

  lemma {:induction false} ReadLength(d: seq<int>, b: seq<int>, s: int, t: int, p: nat)
    requires s <= t && |b| == |d| && Fits(s, t, p, |d|)
    ensures |Elements(Read(d, b, s, t, p))| == t - s + 1
    decreases t - s
  {
    if s == t {
    } else {
      ReadLength(d, b, s, Mid(s, t), 2 * p);
      ReadLength(d, b, Mid(s, t) + 1, t, 2 * p + 1);
    }
  }

  lemma {:induction false} NodeSum(d: seq<int>, b: seq<int>, s: int, t: int, p: nat)
    requires s <= t && |b| == |d| && Fits(s, t, p, |d|) && Consistent(Read(d, b, s, t, p))
    ensures d[p] == Sum(Elements(Read(d, b, s, t, p)))
  {
  }

  /** Tagging one slot tags its view. */
  lemma {:induction false} TagSlot(d: seq<int>, b: seq<int>, d': seq<int>, b': seq<int>,
                                   s: int, t: int, p: nat, c: int)
    requires s <= t && |d| == |b| && Fits(s, t, p, |d|) && Consistent(Read(d, b, s, t, p))
    requires d' == d[p := d[p] + c * (t - s + 1)] && b' == b[p := b[p] + c]
    ensures OnlyUnder(d, b, d', b', p)
    ensures var v, v' := Read(d, b, s, t, p), Read(d', b', s, t, p);
            v' == Tagged(v, c) && Consistent(v') && Elements(v') == AddAll(Elements(v), c)
  {
    hide Under, OnlyUnder, AgreeUnder, Elements;
    WriteNode(d, b, d', b', s, t, p, d'[p], b'[p]);
    ReadLength(d, b, s, t, p);
    TaggedElements(Read(d, b, s, t, p), c);
  }

  lemma {:induction false} NodeParts(d: seq<int>, b: seq<int>, s: int, t: int, p: nat)
    requires |d| == |b| && s < t && Fits(s, t, p, |d|) && Consistent(Read(d, b, s, t, p))
    ensures Read(d, b, s, t, p) == Node(d[p], b[p], Left(d, b, s, t, p), Right(d, b, s, t, p))
    ensures Consistent(Left(d, b, s, t, p)) && Consistent(Right(d, b, s, t, p))
  {
  }

  /** Tagging the left child leaves p and the right one. */
  lemma {:induction false} TagLeft(d: seq<int>, b: seq<int>, d': seq<int>, b': seq<int>, s: int, t: int, p: nat, c: int)
    requires |d| == |b| && s < t && Fits(s, t, p, |d|) && 2 * p + 1 < |d| && Consistent(Left(d, b, s, t, p))
    requires d' == d[2 * p := d[2 * p] + c * (Mid(s, t) - s + 1)] && b' == b[2 * p := b[2 * p] + c]
    ensures OnlyUnder(d, b, d', b', p) && b'[p] == b[p]
    ensures Left(d', b', s, t, p) == Tagged(Left(d, b, s, t, p), c)
    ensures Right(d', b', s, t, p) == Right(d, b, s, t, p)
  {
    hide Under, OnlyUnder, AgreeUnder, Elements, Consistent, Read, Sum, AddAll;
    TagSlot(d, b, d', b', s, Mid(s, t), 2 * p, c);
    ChildChange(d, b, d', b', p, 2 * p);
    Frame(d, b, d', b', Mid(s, t) + 1, t, 2 * p + 1);
  }

  lemma {:induction false} TagRight(d: seq<int>, b: seq<int>, d': seq<int>, b': seq<int>,
                                    s: int, t: int, p: nat, c: int)
    requires |d| == |b| && s < t && Fits(s, t, p, |d|) && 2 * p + 1 < |d| && Consistent(Right(d, b, s, t, p))
    requires d' == d[2 * p + 1 := d[2 * p + 1] + c * (t - Mid(s, t))] && b' == b[2 * p + 1 := b[2 * p + 1] + c]
    ensures OnlyUnder(d, b, d', b', p) && b'[p] == b[p]
    ensures Right(d', b', s, t, p) == Tagged(Right(d, b, s, t, p), c)
    ensures Left(d', b', s, t, p) == Left(d, b, s, t, p)
  {
    hide Under, OnlyUnder, AgreeUnder, Elements, Consistent, Read, Sum, AddAll;
    TagSlot(d, b, d', b', Mid(s, t) + 1, t, 2 * p + 1, c);
    ChildChange(d, b, d', b', p, 2 * p + 1);
    Frame(d, b, d', b', s, Mid(s, t), 2 * p);
  }

  lemma {:induction false} ClearTag(d: seq<int>, b: seq<int>, b': seq<int>, s: int, t: int, p: nat)
    requires |d| == |b| && s < t && Fits(s, t, p, |d|) && b' == b[p := 0]
    ensures OnlyUnder(d, b, d, b', p)
    ensures Left(d, b', s, t, p) == Left(d, b, s, t, p) && Right(d, b', s, t, p) == Right(d, b, s, t, p)
  {
    hide Under, OnlyUnder, AgreeUnder, Read;
    NodeChange(d, b, d, b', p);
    Frame(d, b, d, b', s, Mid(s, t), 2 * p);
    Frame(d, b, d, b', Mid(s, t) + 1, t, 2 * p + 1);
  }

  /** Moving the tag of p into both children. */
  lemma {:induction false} PushSlots(d: seq<int>, b: seq<int>, d1: seq<int>, b1: seq<int>, b2: seq<int>,
                                     d3: seq<int>, b3: seq<int>, s: int, t: int, p: nat)
    requires |d| == |b| && s < t && Fits(s, t, p, |d|) && 2 * p + 1 < |d|
    requires Consistent(Read(d, b, s, t, p))
    requires d1 == d[2 * p := d[2 * p] + b[p] * (Mid(s, t) - s + 1)]
    requires b1 == b[2 * p := b[2 * p] + b[p]]
    requires d3 == d1[2 * p + 1 := d1[2 * p + 1] + b[p] * (t - Mid(s, t))]
    requires b2 == b1[2 * p + 1 := b1[2 * p + 1] + b[p]] && b3 == b2[p := 0]
    ensures OnlyUnder(d, b, d3, b3, p)
    ensures var left, right := Left(d3, b3, s, t, p), Right(d3, b3, s, t, p);
            && Consistent(left) && Consistent(right)
            && Elements(left) + Elements(right) == Elements(Read(d, b, s, t, p))
  {
    hide OnlyUnder, Elements, Consistent, Read, Left, Right, Tagged, Sum, AddAll, Mid;
    NodeParts(d, b, s, t, p);
    TagLeft(d, b, d1, b1, s, t, p, b[p]);
    TagRight(d1, b1, d3, b2, s, t, p, b[p]);
    ClearTag(d3, b2, b3, s, t, p);
    OnlyUnderTwice(d, b, d1, b1, d3, b2, p);
    OnlyUnderTwice(d, b, d3, b2, d3, b3, p);
    PushedElements(Read(d, b, s, t, p));
  }

  lemma {:induction false} NothingToPush(d: seq<int>, b: seq<int>, s: int, t: int, p: nat)
    requires |d| == |b| && s < t && Fits(s, t, p, |d|) && b[p] == 0
    requires Consistent(Read(d, b, s, t, p))
    ensures var left, right := Left(d, b, s, t, p), Right(d, b, s, t, p);
            && Consistent(left) && Consistent(right)
            && Elements(left) + Elements(right) == Elements(Read(d, b, s, t, p))
  {
    hide Sum;
    UntaggedElements(Read(d, b, s, t, p));
  }

  // ---- What the queries and runs mean ------------------------------------------------------

  /** What `getsum1` adds up: node sums, no tag looked at. */
  ghost function Direct(v: View, s: int, l: int, r: int): int {
    if l <= s && s + |Elements(v)| - 1 <= r then v.sum
    else if v.Leaf? then 0
    else
      var m := s + |Elements(v.left)| - 1;
      (if l <= m then Direct(v.left, s, l, r) else 0) + (if r > m then Direct(v.right, m + 1, l, r) else 0)
  }

  ghost predicate NoTags(v: View) {
    v.Node? ==> v.tag == 0 && NoTags(v.left) && NoTags(v.right)
  }

  ghost predicate DirectIsExact(v: View, s: int) {
    forall l, r :: s <= l <= r < s + |Elements(v)| ==> Direct(v, s, l, r) == RangeSum(Elements(v), s, l, r)
  }

  lemma {:induction false} UntaggedIsExact(v: View, s: int, l: int, r: int)
    requires Consistent(v) && NoTags(v)
    requires l < s + |Elements(v)| && s <= r
    ensures Direct(v, s, l, r) == RangeSum(Elements(v), s, l, r)
  {
    hide RangeSum, Sum, AddAll, Elements;
    var xs := Elements(v);
    if v.Leaf? {
      LeafElements(v.sum);
    }
    if l <= s && s + |xs| - 1 <= r {
      RangeSumCovered(xs, s, l, r);
    } else if v.Leaf? {
    } else {
      var left, right := Elements(v.left), Elements(v.right);
      var m := s + |left| - 1;
      UntaggedElements(v);
      RangeSumConcat(left, right, s, l, r);
      if l <= m { UntaggedIsExact(v.left, s, l, r); } else { RangeSumDisjoint(left, s, l, r); }
      if r > m { UntaggedIsExact(v.right, m + 1, l, r); } else { RangeSumDisjoint(right, m + 1, l, r); }
    }
  }

  lemma {:induction false} ElementsNonEmpty(v: View)
    ensures |Elements(v)| >= 1
  {
    if v.Leaf? {
    } else {
      ElementsNonEmpty(v.left);
    }
  }

  lemma {:induction false} ExactIsUntagged(v: View, s: int)
    requires Consistent(v) && DirectIsExact(v, s)
    ensures NoTags(v)
  {
    hide RangeSum, Sum, AddAll;
    if v.Leaf? {
    } else {
      var left, right := Elements(v.left), Elements(v.right);
      var m := s + |left| - 1;
      ElementsNonEmpty(v.left);
      ElementsNonEmpty(v.right);
      RootTagIsZero(v, s);
      forall l, r | s <= l <= r < s + |left|
        ensures Direct(v.left, s, l, r) == RangeSum(left, s, l, r)
      {
        assert Direct(v, s, l, r) == Direct(v.left, s, l, r);
        UntaggedElements(v);
        RangeSumConcat(left, right, s, l, r);
        RangeSumDisjoint(right, m + 1, l, r);
      }
      var s' := m + 1;
      forall l, r | s' <= l <= r < s' + |right|
        ensures Direct(v.right, s', l, r) == RangeSum(right, s', l, r)
      {
        assert Direct(v, s, l, r) == Direct(v.right, m + 1, l, r);
        UntaggedElements(v);
        RangeSumConcat(left, right, s, l, r);
        RangeSumDisjoint(left, s, l, r);
      }
      ExactIsUntagged(v.left, s);
      ExactIsUntagged(v.right, m + 1);
    }
  }

  lemma RootTagIsZero(v: View, s: int)
    requires v.Node? && Consistent(v) && DirectIsExact(v, s)
    ensures v.tag == 0
  {
    hide RangeSum;
    var left, right := Elements(v.left), Elements(v.right);
    var m := s + |left| - 1;
    ElementsNonEmpty(v.left);
    ElementsNonEmpty(v.right);
    assert Direct(v, s, s, m) == v.left.sum;
    AddConcat(left, right, v.tag);
    RangeSumConcat(AddAll(left, v.tag), AddAll(right, v.tag), s, s, m);
    RangeSumCovered(AddAll(left, v.tag), s, s, m);
    RangeSumDisjoint(AddAll(right, v.tag), m + 1, s, m);
    SumAddAll(left, v.tag);
    if v.tag != 0 {
      NonZeroProduct(v.tag, |left|);
    }
  }

  lemma NonZeroProduct(x: int, n: int)
    requires x != 0 && n >= 1
    ensures x * n != 0
  {
  }

  /** `getsum1` answers every range inside the node correctly iff no inner node holds a tag. */
  lemma DirectQueryExactIffUntagged(v: View, s: int)
    requires Consistent(v)
    ensures DirectIsExact(v, s) <==> NoTags(v)
  {
    if NoTags(v) {
      forall l, r | s <= l <= r < s + |Elements(v)|
        ensures Direct(v, s, l, r) == RangeSum(Elements(v), s, l, r)
      {
        UntaggedIsExact(v, s, l, r);
      }
    } else if DirectIsExact(v, s) {
      ExactIsUntagged(v, s);
    }
  }

  datatype Op = Add(l: int, r: int, c: int) | Query(l: int, r: int)

  /** The plain array after one operation, and what the operation answers. */
  ghost function PlainNext(xs: seq<int>, s: int, op: Op): seq<int> {
    if op.Add? then RangeAdd(xs, s, op.l, op.r, op.c) else xs
  }

  ghost function PlainAnswer(xs: seq<int>, s: int, op: Op): seq<int> {
    if op.Add? then [] else [RangeSum(xs, s, op.l, op.r)]
  }

  /** What a plain array over s, s+1, ... answers to the queries among `ops`. */
  ghost function PlainAnswers(xs: seq<int>, s: int, ops: seq<Op>): seq<int>
    decreases |ops|
  {
    if ops == [] then []
    else PlainAnswer(xs, s, ops[0]) + PlainAnswers(PlainNext(xs, s, ops[0]), s, ops[1..])
  }

  // ---- The operations --------------------------------------------------------------------

  class Tree {
    const a: array<int>
    const d: array<int>
    const b: array<int>

    /** The arrays of the program: `size` elements, 4 * size tree slots, all zero at start. */
    constructor (size: nat)
      ensures fresh(a) && fresh(d) && fresh(b)
      ensures a.Length == size && Separate()
      ensures d.Length == b.Length == 4 * size
      ensures forall q :: 0 <= q < b.Length ==> b[q] == 0
    {
      a := new int[size](_ => 0);
      d := new int[4 * size](_ => 0);
      b := new int[4 * size](_ => 0);
    }

    ghost predicate Separate() {
      a != d && a != b && d != b && d.Length == b.Length
    }

    ghost predicate InBounds(s: int, t: int, p: nat) {
      Separate() && s <= t && 1 <= p < d.Length && Fits(s, t, p, d.Length)
    }

    ghost function At(s: int, t: int, p: nat): View
      requires InBounds(s, t, p)
      reads d, b
    {
      Read(d[..], b[..], s, t, p)
    }

    method Build(s: int, t: int, p: nat)
      requires InBounds(s, t, p) && 0 <= s && t < a.Length && Untagged(b[..], p)
      modifies d
      ensures Consistent(At(s, t, p)) && Elements(At(s, t, p)) == a[..][s..t + 1]
      ensures OnlyUnder(old(d[..]), b[..], d[..], b[..], p)
      decreases t - s
    {
      hide Under, OnlyUnder, AgreeUnder, Elements, Fits;
      ghost var d0, b0 := d[..], b[..];
      if s == t {
        d[p] := a[s];
        WriteNode(d0, b0, d[..], b[..], s, t, p, a[s], b[p]);
        LeafElements(a[s]);
        return;
      }
      InnerFits(s, t, p, d.Length);
      UntaggedChildren(b0, p);
      var m := Mid(s, t);
      Build(s, m, p * 2);
      ghost var d1 := d[..];
      assert b[..] == b0;
      Build(m + 1, t, p * 2 + 1);
      ghost var d2 := d[..];
      d[p] := d[p * 2] + d[(p * 2) + 1];
      Rejoin(d0, b0, d1, b0, d2, b0, d[..], s, t, p);
      ghost var a0 := a[..];
      SliceSplits(a0, s, m + 1, t + 1);
    }

    /** The push-down that `update` and `getsum2` share. */
    method PushDown(s: int, t: int, p: nat)
      requires InBounds(s, t, p) && s < t && Consistent(At(s, t, p))
      modifies d, b
      ensures b[p] == 0 && d[p] == old(d[p]) && OnlyUnder(old(d[..]), old(b[..]), d[..], b[..], p)
      ensures InBounds(s, Mid(s, t), 2 * p) && InBounds(Mid(s, t) + 1, t, 2 * p + 1)
      ensures Consistent(Left(d[..], b[..], s, t, p)) && Consistent(Right(d[..], b[..], s, t, p))
      ensures Elements(Left(d[..], b[..], s, t, p)) + Elements(Right(d[..], b[..], s, t, p))
           == old(Elements(At(s, t, p)))
    {
      hide Under, OnlyUnder, AgreeUnder, Elements, Consistent, Read, Fits;
      var m := Mid(s, t);
      InnerFits(s, t, p, d.Length);
      ghost var d0, b0 := d[..], b[..];
      if b[p] != 0 {
        d[p * 2] := d[p * 2] + b[p] * (m - s + 1);
        ghost var d1 := d[..];
        d[p * 2 + 1] := d[p * 2 + 1] + b[p] * (t - m);
        b[p * 2] := b[p * 2] + b[p];
        ghost var b1 := b[..];
        b[p * 2 + 1] := b[p * 2 + 1] + b[p];
        ghost var b2 := b[..];
        b[p] := 0;
        PushSlots(d0, b0, d1, b1, b2, d[..], b[..], s, t, p);
      } else {
        NothingToPush(d0, b0, s, t, p);
        OnlyUnderRefl(d0, b0, p);
      }
    }

    /** Adds c to every element of [l, r] under node p; the ranges must meet. */
    method Update(l: int, r: int, c: int, s: int, t: int, p: nat)
      requires InBounds(s, t, p) && Consistent(At(s, t, p))
      requires l <= t && s <= r
      modifies d, b
      ensures Consistent(At(s, t, p))
      ensures Elements(At(s, t, p)) == RangeAdd(old(Elements(At(s, t, p))), s, l, r, c)
      ensures OnlyUnder(old(d[..]), old(b[..]), d[..], b[..], p)
      decreases t - s
    {
      hide Under, OnlyUnder, AgreeUnder, Elements, RangeAdd, AddAll, Consistent, Read, Fits, Mid;
      ghost var d0, b0 := d[..], b[..];
      ghost var xs := Elements(At(s, t, p));
      ReadLength(d0, b0, s, t, p);
      if l <= s && t <= r {
        d[p] := d[p] + (t - s + 1) * c;
        b[p] := b[p] + c;
        TagSlot(d0, b0, d[..], b[..], s, t, p, c);
        RangeAddCovered(xs, s, l, r, c);
        return;
      }
      var m := Mid(s, t);
      PushDown(s, t, p);
      ghost var d1, b1 := d[..], b[..];
      ghost var left, right := Elements(Left(d1, b1, s, t, p)), Elements(Right(d1, b1, s, t, p));
      ReadLength(d1, b1, s, m, 2 * p);
      if l <= m {
        Update(l, r, c, s, m, p * 2);
      } else {
        OnlyUnderRefl(d1, b1, 2 * p);
        RangeAddDisjoint(left, s, l, r, c);
      }
      ghost var d2, b2 := d[..], b[..];
      ChildChange(d1, b1, d2, b2, p, 2 * p);
      Frame(d1, b1, d2, b2, m + 1, t, 2 * p + 1);
      if r > m {
        Update(l, r, c, m + 1, t, p * 2 + 1);
      } else {
        OnlyUnderRefl(d2, b2, 2 * p + 1);
        RangeAddDisjoint(right, m + 1, l, r, c);
      }
      ghost var d3, b3 := d[..], b[..];
      d[p] := d[p * 2] + d[p * 2 + 1];
      Rejoin(d1, b1, d2, b2, d3, b3, d[..], s, t, p);
      OnlyUnderTwice(d0, b0, d1, b1, d[..], b[..], p);
      RangeAddConcat(left, right, s, l, r, c);
    }

    /** The lazy query: the answer of the plain array, which stays what it was. */
    method GetSum2(l: int, r: int, s: int, t: int, p: nat) returns (sum: int)
      requires InBounds(s, t, p) && Consistent(At(s, t, p))
      requires l <= t && s <= r
      modifies d, b
      ensures sum == RangeSum(old(Elements(At(s, t, p))), s, l, r)
      ensures Consistent(At(s, t, p)) && Elements(At(s, t, p)) == old(Elements(At(s, t, p)))
      ensures OnlyUnder(old(d[..]), old(b[..]), d[..], b[..], p)
      decreases t - s
    {
      hide Under, OnlyUnder, AgreeUnder, Elements, RangeSum, Sum, Consistent, Read, Fits, Mid;
      ghost var d0, b0 := d[..], b[..];
      ghost var xs := Elements(At(s, t, p));
      ReadLength(d0, b0, s, t, p);
      NodeSum(d0, b0, s, t, p);
      if l <= s && t <= r {
        RangeSumCovered(xs, s, l, r);
        OnlyUnderRefl(d0, b0, p);
        return d[p];
      }
      var m := Mid(s, t);
      PushDown(s, t, p);
      ghost var d1, b1 := d[..], b[..];
      ghost var left, right := Elements(Left(d1, b1, s, t, p)), Elements(Right(d1, b1, s, t, p));
      ReadLength(d1, b1, s, m, 2 * p);
      sum := 0;
      if l <= m {
        sum := GetSum2(l, r, s, m, p * 2);
      } else {
        OnlyUnderRefl(d1, b1, 2 * p);
        RangeSumDisjoint(left, s, l, r);
      }
      ghost var d2, b2 := d[..], b[..];
      ChildChange(d1, b1, d2, b2, p, 2 * p);
      Frame(d1, b1, d2, b2, m + 1, t, 2 * p + 1);
      if r > m {
        var rest := GetSum2(l, r, m + 1, t, p * 2 + 1);
        sum := sum + rest;
      } else {
        OnlyUnderRefl(d2, b2, 2 * p + 1);
        RangeSumDisjoint(right, m + 1, l, r);
      }
      ghost var d3, b3 := d[..], b[..];
      SumConcat(left, right);
      RangeSumConcat(left, right, s, l, r);
      ChildChange(d2, b2, d3, b3, p, 2 * p + 1);
      Frame(d2, b2, d3, b3, s, m, 2 * p);
      NodeSum(d3, b3, s, m, 2 * p);
      NodeSum(d3, b3, m + 1, t, 2 * p + 1);
      assert d3 == d3[p := d3[2 * p] + d3[2 * p + 1]];
      Rejoin(d1, b1, d2, b2, d3, b3, d3, s, t, p);
      OnlyUnderTwice(d0, b0, d1, b1, d3, b3, p);
    }

    /** The query that ignores tags. */
    method GetSum1(l: int, r: int, s: int, t: int, p: nat) returns (sum: int)
      requires InBounds(s, t, p)
      requires l <= t && s <= r
      ensures sum == Direct(At(s, t, p), s, l, r)
      decreases t - s
    {
      hide Elements, Fits;
      ghost var d0, b0 := d[..], b[..];
      ReadLength(d0, b0, s, t, p);
      if l <= s && t <= r {
        return d[p];
      }
      var m := Mid(s, t);
      InnerFits(s, t, p, d.Length);
      ReadLength(d0, b0, s, m, 2 * p);
      sum := 0;
      if l <= m {
        var part := GetSum1(l, r, s, m, p * 2);
        sum := sum + part;
      }
      if r > m {
        var part := GetSum1(l, r, m + 1, t, p * 2 + 1);
        sum := sum + part;
      }
    }

    method Apply(s: int, t: int, op: Op) returns (answer: seq<int>)
      requires InBounds(s, t, 1) && Consistent(At(s, t, 1))
      requires op.l <= t && s <= op.r
      modifies d, b
      ensures Consistent(At(s, t, 1))
      ensures Elements(At(s, t, 1)) == PlainNext(old(Elements(At(s, t, 1))), s, op)
      ensures answer == PlainAnswer(old(Elements(At(s, t, 1))), s, op)
    {
      hide Elements, Consistent, RangeAdd, RangeSum, Fits;
      match op
      case Add(l, r, c) =>
        Update(l, r, c, s, t, 1);
        answer := [];
      case Query(l, r) =>
        var sum := GetSum2(l, r, s, t, 1);
        answer := [sum];
    }

    /**
      Any run: the tree is built over [s, t] at root 1, then each operation acts at that root.
      The answers are those of the plain array.
     */
    method Replay(s: int, t: int, ops: seq<Op>) returns (answers: seq<int>)
      requires Separate() && 0 <= s <= t < a.Length && 4 * (t - s + 1) <= d.Length
      requires forall q :: 0 <= q < b.Length ==> b[q] == 0
      requires forall i :: 0 <= i < |ops| ==> ops[i].l <= t && s <= ops[i].r
      modifies d, b
      ensures answers == PlainAnswers(a[..][s..t + 1], s, ops)
    {
      hide Elements, Consistent, PlainNext, PlainAnswer, Fits;
      RootFits(s, t, d.Length);
      Build(s, t, 1);
      answers := [];
      ghost var expected := PlainAnswers(a[..][s..t + 1], s, ops);
      for i := 0 to |ops|
        invariant Consistent(At(s, t, 1))
        invariant expected == answers + PlainAnswers(Elements(At(s, t, 1)), s, ops[i..])
      {
        assert ops[i..][1..] == ops[i + 1..];
        var answer := Apply(s, t, ops[i]);
        answers := answers + answer;
      }
    }
  }
}
