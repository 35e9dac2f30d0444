/** Range search: collect every stored point inside an axis-aligned region
    with closed bounds. At a node splitting on dimension `k` the walk goes
    right only when the node lies below the region on `k`, left only when it
    lies above, and otherwise visits the right side, then the left side,
    then checks the node's remaining dimensions cyclically from the next
    one. Found points are appended to the tree's `pointsInRange`, which
    every search clears first. */
module KdRange {
  import opened Wrappers
  import opened KdPoint
  import opened KdTree

  /** `x` has no more dimensions than the region and lies inside it. */
  predicate Inside(x: Point, region: Region)
  {
    |x| <= |region| && InRegion(x, region)
  }

  /** The reference answer: the points of `s` inside `region`, in order. */
  function Filter(s: seq<Point>, region: Region): (r: seq<Point>)
    ensures forall x :: x in r <==> x in s && Inside(x, region)
    ensures |r| <= |s|
  {
    if |s| == 0 then []
    else
      assert s == [s[0]] + s[1..];
      (if Inside(s[0], region) then [s[0]] else []) + Filter(s[1..], region)
  }

  lemma {:induction false} FilterConcat(a: seq<Point>, b: seq<Point>, region: Region)
    ensures Filter(a + b, region) == Filter(a, region) + Filter(b, region)
  {
    if |a| == 0 {
      assert a + b == b;
    } else {
      var h := if Inside(a[0], region) then [a[0]] else [];
      assert (a + b)[0] == a[0] && (a + b)[1..] == a[1..] + b;
      assert Filter(a + b, region) == h + Filter(a[1..] + b, region);
      FilterConcat(a[1..], b, region);
      assert Filter(a, region) == h + Filter(a[1..], region);
      Regroup3(h, Filter(a[1..], region), Filter(b, region));
    }
  }

  /** `r` starts with `acc`. */
  predicate Extends<T(==)>(acc: seq<T>, r: seq<T>)
  {
    |acc| <= |r| && r[..|acc|] == acc
  }

  lemma ExtendsTrans<T>(a: seq<T>, b: seq<T>, c: seq<T>)
    requires Extends(a, b) && Extends(b, c)
    ensures Extends(a, c)
    ensures forall i :: 0 <= i < |b| ==> c[i] == b[i]
  {
    forall i | 0 <= i < |b|
      ensures c[i] == b[i]
    {
      assert c[..|b|][i] == c[i];
    }
    assert c[..|a|] == b[..|a|];
  }

  lemma ExtendsAppend<T>(a: seq<T>, x: T)
    ensures Extends(a, a + [x])
  {
    assert (a + [x])[..|a|] == a;
  }

  lemma NilAppend<T>(x: seq<T>)
    ensures [] + x == x
  {
  }

  lemma AppendNil<T>(x: seq<T>)
    ensures x + [] == x
  {
  }

  /** A sequence whose points all miss the region on dimension `k` has
      nothing inside it. */
  lemma {:induction false} FilterMissing(s: seq<Point>, region: Region, k: nat)
    requires k < |region|
    requires forall x :: x in s ==> k < |x| && (x[k] < region[k].low || region[k].high < x[k])
    ensures Filter(s, region) == []
  {
    if |s| > 0 {
      assert s[0] in s;
      assert !InInterval(s[0], region, k);
      FilterMissing(s[1..], region, k);
    }
  }

  /** Dimension `d` lies on the cyclic walk from `dim` up to, but not
      including, `k`. */
  predicate InCycle(d: nat, dim: nat, k: nat)
  {
    if dim <= k then dim <= d < k else dim <= d || d < k
  }

  /** The loop over the other dimensions: starting at `dim` and stepping
      `(dim + 1) % numDim` until it comes back to `k`, it fails at the first
      coordinate outside its interval. */
  function OtherDimsIn(p: Point, region: Region, dim: nat, k: nat, numDim: nat): (r: bool)
    requires dim < numDim && k < numDim && |p| == numDim && |region| >= numDim
    decreases if dim <= k then k - dim else k + numDim - dim
  {
    if dim == k then true
    else if p[dim] < region[dim].low || region[dim].high < p[dim] then false
    else OtherDimsIn(p, region, NextDim(dim, numDim), k, numDim)
  }

  /** The loop succeeds exactly when every dimension it walks over is
      inside its interval. */
  lemma {:induction false} OtherDimsInCycle(p: Point, region: Region, dim: nat, k: nat, numDim: nat)
    requires dim < numDim && k < numDim && |p| == numDim && |region| >= numDim
    ensures OtherDimsIn(p, region, dim, k, numDim) <==>
            forall d :: 0 <= d < numDim && InCycle(d, dim, k) ==> InInterval(p, region, d)
    decreases if dim <= k then k - dim else k + numDim - dim
  {
    if dim != k {
      var next := NextDim(dim, numDim);
      OtherDimsInCycle(p, region, next, k, numDim);
      assert InCycle(dim, dim, k);
      forall d | 0 <= d < numDim
        ensures InCycle(d, dim, k) <==> d == dim || InCycle(d, next, k)
      {
      }
      if OtherDimsIn(p, region, dim, k, numDim) {
        forall d | 0 <= d < numDim && InCycle(d, dim, k)
          ensures InInterval(p, region, d)
        {
          if d != dim {
            assert InCycle(d, next, k);
          }
        }
      }
    }
  }

  /** Passing the split dimension and then the loop from the next dimension
      is the same as lying in the region. */
  lemma OtherDimsInRegion(p: Point, region: Region, k: nat, numDim: nat)
    requires k < numDim && |p| == numDim && |region| >= numDim
    ensures InInterval(p, region, k) && OtherDimsIn(p, region, NextDim(k, numDim), k, numDim)
            <==> Inside(p, region)
  {
    OtherDimsInCycle(p, region, NextDim(k, numDim), k, numDim);
  }

  /** `rangeSearchHelper` on the subtree `t` splitting on dimension `k`,
      appending what it finds to `acc`. Everything appended is a point of
      `t` inside the region, and `acc` itself is left alone. */
  function RangeIn(t: KDNode, region: Region, k: nat, numDim: nat, acc: seq<Point>)
    : (r: seq<Point>)
    requires k < numDim && |region| >= numDim && AllDim(t, numDim)
    ensures Extends(acc, r)
    ensures forall i :: |acc| <= i < |r| ==> r[i] in Elements(t) && Inside(r[i], region)
    decreases t
  {
    match t
    case Nil => acc
    case Node(l, p, rt) =>
      ChildrenDims(t, numDim);
      var next := NextDim(k, numDim);
      if p[k] < region[k].low then
        RangeIn(rt, region, next, numDim, acc)
      else if region[k].high < p[k] then
        RangeIn(l, region, next, numDim, acc)
      else
        var a1 := RangeIn(rt, region, next, numDim, acc);
        var a2 := RangeIn(l, region, next, numDim, a1);
        ExtendsTrans(acc, a1, a2);
        if OtherDimsIn(p, region, next, k, numDim) then
          OtherDimsInRegion(p, region, k, numDim);
          ExtendsAppend(a2, p);
          ExtendsTrans(acc, a2, a2 + [p]);
          a2 + [p]
        else a2
  }

  /** What the walk appends does not depend on what was there before. */
  lemma {:induction false} RangeInAppends(t: KDNode, region: Region, k: nat, numDim: nat,
                                          acc: seq<Point>)
    requires k < numDim && |region| >= numDim && AllDim(t, numDim)
    ensures RangeIn(t, region, k, numDim, acc) == acc + RangeIn(t, region, k, numDim, [])
    decreases t
  {
    match t
    case Nil =>
    case Node(l, p, rt) =>
      ChildrenDims(t, numDim);
      var next := NextDim(k, numDim);
      if p[k] < region[k].low {
        RangeInAppends(rt, region, next, numDim, acc);
      } else if region[k].high < p[k] {
        RangeInAppends(l, region, next, numDim, acc);
      } else {
        var a1 := RangeIn(rt, region, next, numDim, acc);
        var e1 := RangeIn(rt, region, next, numDim, []);
        RangeInAppends(rt, region, next, numDim, acc);
        RangeInAppends(l, region, next, numDim, a1);
        RangeInAppends(l, region, next, numDim, e1);
        var el := RangeIn(l, region, next, numDim, []);
        Regroup3(acc, e1, el);
        Regroup3(acc, e1 + el, [p]);
      }
  }

  /** On a partitioned subtree the walk finds every point of the region,
      each as often as it is stored: pruning never skips a point inside. */
  lemma {:induction false} RangeInIsFilter(t: KDNode, region: Region, k: nat, numDim: nat)
    requires k < numDim && |region| >= numDim && AllDim(t, numDim)
    requires Partitioned(t, k, numDim)
    ensures multiset(RangeIn(t, region, k, numDim, [])) == multiset(Filter(Elements(t), region))
    decreases t
  {
    match t
    case Nil =>
    case Node(l, p, rt) =>
      ChildrenDims(t, numDim);
      var next := NextDim(k, numDim);
      var res := RangeIn(t, region, k, numDim, []);
      if p[k] < region[k].low {
        RangeInIsFilter(rt, region, next, numDim);
        BelowRegionStep(Elements(l), p, Elements(rt), region, k, res);
      } else if region[k].high < p[k] {
        RangeInIsFilter(l, region, next, numDim);
        AboveRegionStep(Elements(l), p, Elements(rt), region, k, res);
      } else {
        RangeInIsFilter(rt, region, next, numDim);
        RangeInIsFilter(l, region, next, numDim);
        var e1 := RangeIn(rt, region, next, numDim, []);
        var el := RangeIn(l, region, next, numDim, []);
        RangeInStraddle(t, region, k, numDim);
        StraddleStep(Elements(l), p, Elements(rt), region, e1, el, res);
      }
  }

  /** The walk at a node within the region on its split dimension: the
      right side's finds, then the left side's, then the node if it is
      inside. */
  lemma RangeInStraddle(t: KDNode, region: Region, k: nat, numDim: nat)
    requires t.Node? && k < numDim && |region| >= numDim && AllDim(t, numDim)
    requires AllDim(t.left, numDim) && AllDim(t.right, numDim) && |t.point| == numDim
    requires region[k].low <= t.point[k] <= region[k].high
    ensures var next := NextDim(k, numDim);
            var e1 := RangeIn(t.right, region, next, numDim, []);
            var el := RangeIn(t.left, region, next, numDim, []);
            RangeIn(t, region, k, numDim, []) ==
              if Inside(t.point, region) then e1 + el + [t.point] else e1 + el
  {
    var next := NextDim(k, numDim);
    var e1 := RangeIn(t.right, region, next, numDim, []);
    RangeInAppends(t.left, region, next, numDim, e1);
    OtherDimsInRegion(t.point, region, k, numDim);
  }

  /** The node lies below the region on the split dimension, and so does
      its whole left side: only the right side can contribute. */
  lemma BelowRegionStep(lf: seq<Point>, p: Point, rf: seq<Point>, region: Region, k: nat,
                        res: seq<Point>)
    requires k < |p| && k < |region| && p[k] < region[k].low
    requires forall x :: x in lf ==> k < |x| && x[k] <= p[k]
    requires multiset(res) == multiset(Filter(rf, region))
    ensures multiset(res) == multiset(Filter(lf + [p] + rf, region))
  {
    FilterConcat(lf + [p], rf, region);
    FilterMissing(lf + [p], region, k);
    NilAppend(Filter(rf, region));
  }

  /** The node lies above the region on the split dimension, and so does
      its whole right side: only the left side can contribute. */
  lemma AboveRegionStep(lf: seq<Point>, p: Point, rf: seq<Point>, region: Region, k: nat,
                        res: seq<Point>)
    requires k < |p| && k < |region| && region[k].high < p[k]
    requires forall x :: x in rf ==> k < |x| && p[k] <= x[k]
    requires multiset(res) == multiset(Filter(lf, region))
    ensures multiset(res) == multiset(Filter(lf + [p] + rf, region))
  {
    Regroup3(lf, [p], rf);
    FilterConcat(lf, [p] + rf, region);
    FilterMissing([p] + rf, region, k);
    AppendNil(Filter(lf, region));
  }

  /** The node lies within the region on the split dimension: both sides
      contribute, right first, and the node joins when it is inside. */
  lemma StraddleStep(lf: seq<Point>, p: Point, rf: seq<Point>, region: Region,
                     e1: seq<Point>, el: seq<Point>, res: seq<Point>)
    requires multiset(e1) == multiset(Filter(rf, region))
    requires multiset(el) == multiset(Filter(lf, region))
    requires res == if Inside(p, region) then e1 + el + [p] else e1 + el
    ensures multiset(res) == multiset(Filter(lf + [p] + rf, region))
  {
    FilterConcat(lf + [p], rf, region);
    FilterConcat(lf, [p], region);
    FilterSingle(p, region);
  }

  lemma FilterSingle(p: Point, region: Region)
    ensures Filter([p], region) == if Inside(p, region) then [p] else []
  {
    assert [p][1..] == [];
  }

  /** `rangeSearch`: clears `pointsInRange`, walks from the root on
      dimension 0, and returns the tree with its filled container together
      with a copy of it. The answer holds exactly the stored points inside
      the region, each as many times as it is stored. */
  function RangeSearch(t: KDT, region: Region): (r: (KDT, seq<Point>))
    requires Valid(t) && (t.root.Node? ==> |region| >= t.numDim)
    ensures r.0 == t.(pointsInRange := r.1)
    ensures multiset(r.1) == multiset(Filter(Elements(t.root), region))
    ensures forall x :: x in r.1 <==> x in Elements(t.root) && Inside(x, region)
  {
    if t.root.Nil? then
      (t.(pointsInRange := []), [])
    else
      var found := RangeIn(t.root, region, 0, t.numDim, []);
      RangeInIsFilter(t.root, region, 0, t.numDim);
      FilterMultiset(found, Filter(Elements(t.root), region));
      (t.(pointsInRange := found), found)
  }

  lemma FilterMultiset(a: seq<Point>, b: seq<Point>)
    requires multiset(a) == multiset(b)
    ensures forall x :: x in a <==> x in b
  {
    forall x
      ensures x in a <==> x in b
    {
      assert x in a <==> x in multiset(a);
      assert x in b <==> x in multiset(b);
    }
  }

  /** A second search over the same region gives the same answer: the
      container is cleared each time. */
  lemma RangeSearchRepeatable(t: KDT, region: Region)
    requires Valid(t) && (t.root.Node? ==> |region| >= t.numDim)
    ensures var (t1, found1) := RangeSearch(t, region);
            Valid(t1) && RangeSearch(t1, region) == (t1, found1)
  {
  }
}
