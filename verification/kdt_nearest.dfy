/** Nearest-neighbour search: a depth-first walk that visits the side of the
    splitting plane holding the query first, visits the other side only when
    the plane is closer than the best distance so far, and offers each node
    last. The source keeps the best point and its distance (`threshold`) in
    two fields of the tree; here they are one optional candidate threaded
    through the walk, where `None` stands for a threshold at the largest
    representable value. */
module KdNearest {
  import opened Wrappers
  import opened KdPoint
  import opened KdTree

  /** A point together with its squared distance to the query. */
  datatype Candidate = Candidate(point: Point, dist: int)

  /** `d` is strictly below the current threshold. */
  predicate Below(d: int, best: Option<Candidate>)
  {
    best.None? || d < best.value.dist
  }

  /** The search state records a point's true squared distance to `q`. */
  predicate Consistent(best: Option<Candidate>, q: Point)
  {
    best.Some? ==> |best.value.point| == |q| && best.value.dist == SqDist(best.value.point, q)
  }

  /** `dist` is no larger than the squared distance from `q` to any point of
      `pts` with `q`'s dimension. */
  predicate Bounds(dist: int, pts: seq<Point>, q: Point)
  {
    forall x :: x in pts && |x| == |q| ==> dist <= SqDist(x, q)
  }

  /** `findNNHelper` on the subtree `t` splitting on dimension `k`, starting
      from the search state `best`. The result is either `best` untouched or
      a point of `t` strictly nearer than `best`, so a point only as near as
      the incoming candidate never displaces it. */
  function NearestIn(t: KDNode, q: Point, k: nat, numDim: nat, best: Option<Candidate>)
    : (r: Option<Candidate>)
    requires k < numDim && |q| == numDim && AllDim(t, numDim)
    requires Consistent(best, q)
    ensures Consistent(r, q)
    ensures r.Some? <==> best.Some? || t.Node?
    ensures r == best || (r.Some? && r.value.point in Elements(t) && Below(r.value.dist, best))
    decreases t
  {
    match t
    case Nil => best
    case Node(l, p, rt) =>
      ChildrenDims(t, numDim);
      var next := NextDim(k, numDim);
      var queryRight := p[k] <= q[k];
      var near := if queryRight then rt else l;
      var far := if queryRight then l else rt;
      var b1 := NearestIn(near, q, next, numDim, best);
      var b2 := if Below(Sq(p[k] - q[k]), b1) then NearestIn(far, q, next, numDim, b1) else b1;
      var d := SqDist(p, q);
      if Below(d, b2) then Some(Candidate(p, d)) else b2
  }

  /** On a partitioned subtree the walk ends with a candidate no farther
      from `q` than any point of the subtree: pruning never skips a nearer
      point. */
  lemma {:induction false} NearestInIsNearest(t: KDNode, q: Point, k: nat, numDim: nat,
                                              best: Option<Candidate>)
    requires k < numDim && |q| == numDim && AllDim(t, numDim)
    requires Consistent(best, q) && Partitioned(t, k, numDim)
    ensures var r := NearestIn(t, q, k, numDim, best);
            r.Some? ==> Bounds(r.value.dist, Elements(t), q)
    decreases t
  {
    match t
    case Nil =>
    case Node(l, p, rt) =>
      ChildrenDims(t, numDim);
      var next := NextDim(k, numDim);
      var queryRight := p[k] <= q[k];
      var near := if queryRight then rt else l;
      var far := if queryRight then l else rt;
      var b1 := NearestIn(near, q, next, numDim, best);
      var b2 := if Below(Sq(p[k] - q[k]), b1) then NearestIn(far, q, next, numDim, b1) else b1;
      NearestInNode(t, q, k, numDim, best, near, far, b1, b2);
      NearestInIsNearest(near, q, next, numDim, best);
      if Below(Sq(p[k] - q[k]), b1) {
        NearestInIsNearest(far, q, next, numDim, b1);
      }
      NodeBound(p, q, k, numDim, Elements(l), Elements(rt), b1, b2);
  }

  /** The node case of `NearestInIsNearest`, on the points of the two
      sides, given what the walk achieved on the side it visited first and,
      if it went there, on the other side. */
  lemma NodeBound(p: Point, q: Point, k: nat, numDim: nat, leftPts: seq<Point>,
                  rightPts: seq<Point>, b1: Option<Candidate>, b2: Option<Candidate>)
    requires k < numDim && |q| == numDim && |p| == numDim
    requires forall x :: x in leftPts ==> |x| == numDim && x[k] <= p[k]
    requires forall x :: x in rightPts ==> |x| == numDim && p[k] <= x[k]
    requires var nearPts := if p[k] <= q[k] then rightPts else leftPts;
             && (b1.None? ==> |nearPts| == 0)
             && (b1.Some? ==> Bounds(b1.value.dist, nearPts, q))
    requires b2 == b1 || (b2.Some? && Below(b2.value.dist, b1))
    requires !Below(Sq(p[k] - q[k]), b1) ==> b2 == b1
    requires var farPts := if p[k] <= q[k] then leftPts else rightPts;
             && (b2.None? ==> |farPts| == 0)
             && (Below(Sq(p[k] - q[k]), b1) && b2.Some? ==> Bounds(b2.value.dist, farPts, q))
    ensures var d := SqDist(p, q);
            var r := if Below(d, b2) then Some(Candidate(p, d)) else b2;
            r.Some? ==> Bounds(r.value.dist, leftPts + [p] + rightPts, q)
  {
    var nearPts := if p[k] <= q[k] then rightPts else leftPts;
    var farPts := if p[k] <= q[k] then leftPts else rightPts;
    assert b2.Some? ==> Bounds(b2.value.dist, farPts, q) by {
      if !Below(Sq(p[k] - q[k]), b1) {
        FarSideBound(farPts, p, q, k, b1.value.dist);
      }
    }
    NodeOffer(leftPts + [p] + rightPts, nearPts, farPts, p, q, b1, b2, SqDist(p, q));
  }

  /** One step of the walk at a node, spelled out: `near` and `far` are the
      sides with and without the query, `b1` and `b2` the states after each. */
  lemma NearestInNode(t: KDNode, q: Point, k: nat, numDim: nat, best: Option<Candidate>,
                      near: KDNode, far: KDNode, b1: Option<Candidate>, b2: Option<Candidate>)
    requires t.Node? && k < numDim && |q| == numDim && AllDim(t, numDim)
    requires AllDim(t.left, numDim) && AllDim(t.right, numDim) && |t.point| == numDim
    requires Consistent(best, q)
    requires near == if t.point[k] <= q[k] then t.right else t.left
    requires far == if t.point[k] <= q[k] then t.left else t.right
    requires b1 == NearestIn(near, q, NextDim(k, numDim), numDim, best)
    requires b2 == if Below(Sq(t.point[k] - q[k]), b1)
                   then NearestIn(far, q, NextDim(k, numDim), numDim, b1) else b1
    ensures NearestIn(t, q, k, numDim, best) ==
            if Below(SqDist(t.point, q), b2) then Some(Candidate(t.point, SqDist(t.point, q))) else b2
  {
  }

  /** A skipped side is no nearer than the current threshold: its points
      lie beyond the splitting plane, whose squared gap to `q` is already
      at least `bound`. */
  lemma FarSideBound(farPts: seq<Point>, p: Point, q: Point, k: nat, bound: int)
    requires k < |p| && |p| == |q| && forall x :: x in farPts ==> |x| == |q|
    requires || (p[k] <= q[k] && forall x :: x in farPts ==> x[k] <= p[k])
             || (q[k] < p[k] && forall x :: x in farPts ==> p[k] <= x[k])
    requires bound <= Sq(p[k] - q[k])
    ensures Bounds(bound, farPts, q)
  {
    forall x | x in farPts && |x| == |q|
      ensures bound <= SqDist(x, q)
    {
      SqGapMonotone(x[k], p[k], q[k]);
      SqDistAtLeastGap(x, q, k);
    }
  }

  /** The last step of one node: once the state is no farther than both
      sides, offering the node itself makes it no farther than the whole
      subtree. */
  lemma NodeOffer(all: seq<Point>, nearPts: seq<Point>, farPts: seq<Point>, p: Point, q: Point,
                  b1: Option<Candidate>, b2: Option<Candidate>, d: int)
    requires |p| == |q|
    requires all == nearPts + [p] + farPts || all == farPts + [p] + nearPts
    requires b1.None? ==> |nearPts| == 0
    requires b1.Some? ==> Bounds(b1.value.dist, nearPts, q)
    requires b2 == b1 || (b2.Some? && Below(b2.value.dist, b1))
    requires b2.None? ==> |farPts| == 0
    requires b2.Some? ==> Bounds(b2.value.dist, farPts, q)
    requires d == SqDist(p, q)
    ensures var r := if Below(d, b2) then Some(Candidate(p, d)) else b2;
            r.Some? ==> Bounds(r.value.dist, all, q)
  {
    var r := if Below(d, b2) then Some(Candidate(p, d)) else b2;
    if r.Some? {
      forall x | x in all && |x| == |q|
        ensures r.value.dist <= SqDist(x, q)
      {
        if x in nearPts {
          assert b1.value.dist <= SqDist(x, q);
        } else if x in farPts {
          assert b2.value.dist <= SqDist(x, q);
        }
      }
    }
  }

  /** `findNearestNeighbor`: nothing on an empty tree, otherwise the point
      the walk from the root on dimension 0 settles on, starting from an
      infinite threshold. */
  function FindNearestNeighbor(t: KDT, q: Point): (r: Option<Point>)
    requires Valid(t) && (t.root.Node? ==> |q| == t.numDim)
    ensures r.None? <==> t.size == 0
    ensures r.Some? ==> r.value in Elements(t.root)
  {
    if t.size == 0 then None
    else
      var c := NearestIn(t.root, q, 0, t.numDim, None);
      Some(c.value.point)
  }

  /** The point returned is a nearest stored point: no stored point is
      strictly closer to the query. */
  lemma FindNearestIsNearest(t: KDT, q: Point)
    requires Valid(t) && (t.root.Node? ==> |q| == t.numDim)
    ensures var r := FindNearestNeighbor(t, q);
            r.Some? ==> |r.value| == |q| &&
                        forall x :: x in Elements(t.root) ==> SqDist(r.value, q) <= SqDist(x, q)
  {
    if t.size > 0 {
      NearestInIsNearest(t.root, q, 0, t.numDim, None);
    }
  }
}
