/** The KD-tree itself: its nodes, its bookkeeping counters, the partition
    invariant, and `build` (median split on a dimension that cycles with
    depth). */
module KdTree {
  import opened Wrappers
  import opened KdPoint
  import opened DimSort

  /** A node owns one point and two optional subtrees; `Nil` is the null
      child pointer. */
  datatype KDNode = Nil | Node(left: KDNode, point: Point, right: KDNode)

  /** The tree object: root, dimensionality, the `isize` and `iheight`
      counters, and the range-search result container that every range
      search clears before filling it. */
  datatype KDT = KDT(root: KDNode, numDim: nat, size: nat, height: int,
                     pointsInRange: seq<Point>)

  /** The points of a subtree, in in-order (left, node, right). */
  function Elements(t: KDNode): (pts: seq<Point>)
  {
    match t
    case Nil => []
    case Node(l, p, r) => Elements(l) + [p] + Elements(r)
  }

  /** Number of edges on the longest root-to-leaf path; -1 when empty. */
  function TreeHeight(t: KDNode): (h: int)
    ensures h >= -1
    ensures t.Node? <==> h >= 0
  {
    match t
    case Nil => -1
    case Node(l, _, r) => 1 + Max(TreeHeight(l), TreeHeight(r))
  }

  /** Every stored point has exactly `numDim` coordinates. */
  predicate AllDim(t: KDNode, numDim: nat)
  {
    forall x :: x in Elements(t) ==> |x| == numDim
  }

  /** The children of a node whose points all have `numDim` coordinates
      have that property too. */
  lemma ChildrenDims(t: KDNode, numDim: nat)
    requires t.Node? && AllDim(t, numDim)
    ensures AllDim(t.left, numDim) && AllDim(t.right, numDim)
    ensures |t.point| == numDim
  {
    assert t.point in Elements(t);
    forall x | x in Elements(t.left)
      ensures |x| == numDim
    {
      assert x in Elements(t);
    }
    forall x | x in Elements(t.right)
      ensures |x| == numDim
    {
      assert x in Elements(t);
    }
  }

  /** The dimension used one level below dimension `k`: `(k + 1) % numDim`. */
  function NextDim(k: nat, numDim: nat): (r: nat)
    requires k < numDim
    ensures r < numDim
    ensures r == if k + 1 == numDim then 0 else k + 1
  {
    (k + 1) % numDim
  }

  /** The partition invariant: at a node splitting on dimension `k`, every
      point of the left subtree is <= the node's point in dimension `k` and
      every point of the right subtree is >= it; the children split on the
      next dimension. Ties may fall on either side. */
  predicate Partitioned(t: KDNode, k: nat, numDim: nat)
    requires k < numDim && AllDim(t, numDim)
  {
    match t
    case Nil => true
    case Node(l, p, r) =>
      && (forall x :: x in Elements(l) ==> x[k] <= p[k])
      && (forall x :: x in Elements(r) ==> p[k] <= x[k])
      && Partitioned(l, NextDim(k, numDim), numDim)
      && Partitioned(r, NextDim(k, numDim), numDim)
  }

  /** floor(log2 n) for n >= 1. */
  function FloorLog2(n: nat): (r: nat)
    requires n >= 1
    ensures n >= 2 ==> r >= 1
  {
    if n == 1 then 0 else 1 + FloorLog2(n / 2)
  }

  lemma {:induction false} FloorLog2Monotone(a: nat, b: nat)
    requires 1 <= a <= b
    ensures FloorLog2(a) <= FloorLog2(b)
    decreases b
  {
    if a > 1 {
      FloorLog2Monotone(a / 2, b / 2);
    }
  }

  /** Height of a median-split tree over `n` points. */
  function SplitHeight(n: nat): (h: int)
  {
    if n == 0 then -1 else FloorLog2(n)
  }

  /** Splitting `n >= 1` points at index `n / 2` leaves a left part of
      `n / 2` and a right part of `n - n / 2 - 1` points; the taller side
      is the left one and sets the height. */
  lemma MedianSplitHeight(n: nat, a: nat, b: nat)
    requires n >= 1 && a == n / 2 && a + 1 + b == n
    ensures FloorLog2(n) == 1 + Max(SplitHeight(a), SplitHeight(b))
  {
    assert a * 2 <= n <= a * 2 + 1;
    if n > 1 {
      assert FloorLog2(n) == 1 + FloorLog2(a);
      if b >= 1 {
        FloorLog2Monotone(b, a);
      }
    }
  }

  /** The all-points-same-dimension condition on an input batch. */
  predicate Uniform(pts: seq<Point>, numDim: nat)
  {
    forall x :: x in pts ==> |x| == numDim
  }

  /** A built subtree together with the `isize` / `iheight` counters as
      they stand after building it. */
  datatype Built = Built(node: KDNode, size: nat, height: int)

  /** Sorting keeps a batch uniform, and so do its two halves around the
      median. */
  lemma UniformSorted(pts: seq<Point>, s: seq<Point>, m: nat, numDim: nat)
    requires Uniform(pts, numDim) && multiset(s) == multiset(pts) && m < |s|
    ensures Uniform(s, numDim) && Uniform(s[..m], numDim) && Uniform(s[m + 1..], numDim)
    ensures |s[m]| == numDim
  {
    forall x | x in s
      ensures |x| == numDim
    {
      assert x in multiset(s);
    }
    assert forall x :: x in s[..m] ==> x in s;
    assert forall x :: x in s[m + 1..] ==> x in s;
  }

  /** What `buildSubtree` promises about a subtree built from `pts` on
      dimension `curDim` below a parent at `height`: it holds exactly the
      batch, is partitioned, has height floor(log2 n), and has moved the
      counters on by the number of nodes and to the deepest new depth. */
  predicate BuiltFrom(r: Built, pts: seq<Point>, curDim: nat, numDim: nat,
                      height: int, isize: nat, iheight: int)
    requires curDim < numDim
  {
    && multiset(Elements(r.node)) == multiset(pts)
    && r.size == isize + |pts|
    && AllDim(r.node, numDim) && Partitioned(r.node, curDim, numDim)
    && TreeHeight(r.node) == SplitHeight(|pts|)
    && r.height == CounterAfter(|pts|, height, iheight)
  }

  /** `buildSubtree`: sorts the range on `curDim`, makes the element at the
      median index the subtree root, counts it, raises `iheight` to the
      node's height if needed, and recurses on both halves with the next
      dimension. `pts` is the sub-range [start, end) of the source;
      `(start + end) / 2` is `start + |pts| / 2`. */
  function BuildSubtree(pts: seq<Point>, curDim: nat, numDim: nat,
                        height: int, isize: nat, iheight: int): (r: Built)
    requires curDim < numDim && Uniform(pts, numDim)
    ensures BuiltFrom(r, pts, curDim, numDim, height, isize, iheight)
    decreases |pts|
  {
    if |pts| == 0 then
      Built(Nil, isize, iheight)
    else
      var s := SortByDim(pts, curDim);
      var m := |s| / 2;
      UniformSorted(pts, s, m, numDim);
      var h := height + 1;
      var ih := if h > iheight then h else iheight;
      var next := NextDim(curDim, numDim);
      var left := BuildSubtree(s[..m], next, numDim, h, isize + 1, ih);
      var right := BuildSubtree(s[m + 1..], next, numDim, h, left.size, left.height);
      MedianNodeBuilt(pts, s, m, curDim, numDim, height, isize, iheight, left, right);
      Built(Node(left.node, s[m], right.node), right.size, right.height)
  }

  /** One step of `buildSubtree`: the median of the sorted range over the
      two subtrees built from its halves is a correct subtree for the
      whole range. */
  lemma MedianNodeBuilt(pts: seq<Point>, s: seq<Point>, m: nat, curDim: nat, numDim: nat,
                        height: int, isize: nat, iheight: int, left: Built, right: Built)
    requires curDim < numDim && Uniform(pts, numDim) && |pts| > 0
    requires multiset(s) == multiset(pts) && |s| == |pts| && m == |s| / 2
    requires HasDim(s, curDim) && SortedBy(s, curDim)
    requires var h := height + 1;
             var ih := if h > iheight then h else iheight;
             && BuiltFrom(left, s[..m], NextDim(curDim, numDim), numDim, h, isize + 1, ih)
             && BuiltFrom(right, s[m + 1..], NextDim(curDim, numDim), numDim, h, left.size, left.height)
    ensures BuiltFrom(Built(Node(left.node, s[m], right.node), right.size, right.height),
                      pts, curDim, numDim, height, isize, iheight)
  {
    assert |s[..m]| == m && |s[m + 1..]| == |s| - m - 1;
    MedianNodeContents(pts, s, m, left.node, right.node);
    MedianNodePartition(pts, s, m, curDim, numDim, left.node, right.node);
    MedianNodeHeights(|s|, m, |s| - m - 1, height, iheight, left, right, s[m]);
  }

  lemma MedianNodeHeights(n: nat, a: nat, b: nat, height: int, iheight: int,
                          left: Built, right: Built, p: Point)
    requires n >= 1 && a == n / 2 && a + 1 + b == n
    requires TreeHeight(left.node) == SplitHeight(a) && TreeHeight(right.node) == SplitHeight(b)
    requires var h := height + 1;
             var ih := if h > iheight then h else iheight;
             left.height == CounterAfter(a, h, ih) && right.height == CounterAfter(b, h, left.height)
    ensures TreeHeight(Node(left.node, p, right.node)) == SplitHeight(n)
    ensures right.height == CounterAfter(n, height, iheight)
  {
    MedianSplitHeight(n, a, b);
    CounterAfterUnfold(n, a, height, iheight);
  }

  lemma MedianNodeContents(pts: seq<Point>, s: seq<Point>, m: nat, l: KDNode, r: KDNode)
    requires multiset(s) == multiset(pts) && m < |s|
    requires multiset(Elements(l)) == multiset(s[..m])
    requires multiset(Elements(r)) == multiset(s[m + 1..])
    ensures multiset(Elements(Node(l, s[m], r))) == multiset(pts)
  {
    SplitMultiset(s, m);
    assert Elements(Node(l, s[m], r)) == Elements(l) + [s[m]] + Elements(r);
  }

  /** A sequence is its prefix, the element at `m`, and its suffix. */
  lemma SplitMultiset<T>(s: seq<T>, m: nat)
    requires m < |s|
    ensures multiset(s) == multiset(s[..m]) + multiset{s[m]} + multiset(s[m + 1..])
  {
    assert s == s[..m] + [s[m]] + s[m + 1..];
  }

  lemma MedianNodePartition(pts: seq<Point>, s: seq<Point>, m: nat, curDim: nat, numDim: nat,
                            l: KDNode, r: KDNode)
    requires curDim < numDim && Uniform(pts, numDim)
    requires multiset(s) == multiset(pts) && m < |s|
    requires HasDim(s, curDim) && SortedBy(s, curDim)
    requires multiset(Elements(l)) == multiset(s[..m])
    requires multiset(Elements(r)) == multiset(s[m + 1..])
    requires AllDim(l, numDim) && Partitioned(l, NextDim(curDim, numDim), numDim)
    requires AllDim(r, numDim) && Partitioned(r, NextDim(curDim, numDim), numDim)
    ensures AllDim(Node(l, s[m], r), numDim) && Partitioned(Node(l, s[m], r), curDim, numDim)
  {
    UniformSorted(pts, s, m, numDim);
    BelowMedian(s, m, curDim, Elements(l));
    AboveMedian(s, m, curDim, Elements(r));
  }

  /** The `iheight` counter after `buildSubtree` runs on `n` points from a
      parent at `height`: it depends on the number of points only. */
  function CounterAfter(n: nat, height: int, iheight: int): (h: int)
    decreases n
  {
    if n == 0 then iheight
    else
      var h := height + 1;
      var ih := if h > iheight then h else iheight;
      CounterAfter(n - n / 2 - 1, h, CounterAfter(n / 2, h, ih))
  }

  lemma CounterAfterUnfold(n: nat, m: nat, height: int, iheight: int)
    requires n > 0 && m == n / 2
    ensures CounterAfter(n, height, iheight) ==
            CounterAfter(n - m - 1, height + 1,
                         CounterAfter(m, height + 1, if height + 1 > iheight then height + 1 else iheight))
  {
  }

  /** The counter ends at the larger of its old value and the depth of the
      deepest node built, which is `height + 1 + floor(log2 n)`. */
  lemma {:induction false} CounterAfterIsDeepest(n: nat, height: int, iheight: int)
    ensures CounterAfter(n, height, iheight) ==
            if n == 0 then iheight else Max(iheight, height + 1 + FloorLog2(n))
    decreases n
  {
    if n > 0 {
      var a, b := n / 2, n - n / 2 - 1;
      var h := height + 1;
      var ih := if h > iheight then h else iheight;
      var lh := CounterAfter(a, h, ih);
      var rh := CounterAfter(b, h, lh);
      CounterAfterUnfold(n, a, height, iheight);
      CounterAfterIsDeepest(a, h, ih);
      CounterAfterIsDeepest(b, h, lh);
      CounterAfterSplit(n, a, b, iheight, h, lh, rh);
    }
  }

  /** The `iheight` bookkeeping of one split: the node raises it to its own
      height `h`, then each non-empty half raises it to `h` plus that
      half's height plus one. */
  lemma CounterAfterSplit(n: nat, a: nat, b: nat, iheight: int, h: int, lh: int, rh: int)
    requires n >= 1 && a == n / 2 && a + 1 + b == n
    requires var ih := if h > iheight then h else iheight;
             lh == if a == 0 then ih else Max(ih, h + 1 + FloorLog2(a))
    requires rh == if b == 0 then lh else Max(lh, h + 1 + FloorLog2(b))
    ensures rh == Max(iheight, h + FloorLog2(n))
  {
    assert a * 2 <= n <= a * 2 + 1;
    if n > 1 {
      assert FloorLog2(n) == 1 + FloorLog2(a);
      if b > 0 {
        FloorLog2Monotone(b, a);
      }
    }
  }

  /** Whatever holds the points before the median of a sorted range lies
      at or below the median on the sorting dimension. */
  lemma BelowMedian(s: seq<Point>, m: nat, k: nat, xs: seq<Point>)
    requires m < |s| && HasDim(s, k) && SortedBy(s, k)
    requires multiset(xs) == multiset(s[..m])
    ensures forall x :: x in xs ==> k < |x| && x[k] <= s[m][k]
  {
    forall x | x in xs
      ensures k < |x| && x[k] <= s[m][k]
    {
      assert x in multiset(xs);
      assert x in s[..m];
      var i :| 0 <= i < m && s[..m][i] == x;
      assert s[i] == x;
    }
  }

  /** Whatever holds the points after the median of a sorted range lies at
      or above the median on the sorting dimension. */
  lemma AboveMedian(s: seq<Point>, m: nat, k: nat, xs: seq<Point>)
    requires m < |s| && HasDim(s, k) && SortedBy(s, k)
    requires multiset(xs) == multiset(s[m + 1..])
    ensures forall x :: x in xs ==> k < |x| && s[m][k] <= x[k]
  {
    forall x | x in xs
      ensures k < |x| && s[m][k] <= x[k]
    {
      assert x in multiset(xs);
      assert x in s[m + 1..];
      var i :| 0 <= i < |s| - m - 1 && s[m + 1..][i] == x;
      assert s[m + 1 + i] == x;
    }
  }

  /** A new tree (constructor `KDT()`): no points, size 0, height -1, and
      it satisfies the class invariant. */
  function NewKDT(): (r: KDT)
    ensures Valid(r) && |Elements(r.root)| == 0
    ensures Size(r) == 0 && Height(r) == -1
  {
    KDT(Nil, 0, 0, -1, [])
  }

  /** The class invariant: the counters agree with the node graph and a
      non-empty tree is partitioned with dimension 0 at the root. */
  predicate Valid(t: KDT)
  {
    && t.size == |Elements(t.root)|
    && t.height == TreeHeight(t.root)
    && (t.root.Node? ==>
          t.numDim >= 1 && AllDim(t.root, t.numDim) && Partitioned(t.root, 0, t.numDim))
  }

  /** `build`: an empty batch changes nothing; otherwise `numDim` is taken
      from the first point, the batch is sorted on dimension 0, the median
      becomes the root at height 0 and both halves are built with dimension
      `1 % numDim`. The old node graph is dropped, and the size counter
      carries on from its old value as in the source. */
  function Build(t: KDT, points: seq<Point>): (r: KDT)
    requires |points| > 0 ==> |points[0]| >= 1 && Uniform(points, |points[0]|)
    ensures |points| == 0 ==> r == t
    ensures |points| > 0 ==>
              && r.numDim == |points[0]|
              && BuiltFrom(Built(r.root, r.size, r.height), points, 0, r.numDim, -1, t.size, -1)
              && r.height == FloorLog2(|points|)
    ensures r.pointsInRange == t.pointsInRange
  {
    if |points| == 0 then
      t
    else
      var numDim := |points[0]|;
      var s := SortByDim(points, 0);
      var m := |s| / 2;
      UniformSorted(points, s, m, numDim);
      var left := BuildSubtree(s[..m], NextDim(0, numDim), numDim, 0, t.size + 1, 0);
      var right := BuildSubtree(s[m + 1..], NextDim(0, numDim), numDim, 0, left.size, left.height);
      RootBuilt(points, s, m, numDim, t.size, left, right);
      t.(root := Node(left.node, s[m], right.node), numDim := numDim,
         size := right.size, height := right.height)
  }

  /** The root step of `build` is the median step of `buildSubtree` from a
      parent at height -1 with the counter at -1, so the tree it finishes
      is `floor(log2 n)` high. */
  lemma RootBuilt(points: seq<Point>, s: seq<Point>, m: nat, numDim: nat, isize: nat,
                  left: Built, right: Built)
    requires 0 < numDim && Uniform(points, numDim) && |points| > 0
    requires multiset(s) == multiset(points) && |s| == |points| && m == |s| / 2
    requires HasDim(s, 0) && SortedBy(s, 0)
    requires BuiltFrom(left, s[..m], NextDim(0, numDim), numDim, 0, isize + 1, 0)
    requires BuiltFrom(right, s[m + 1..], NextDim(0, numDim), numDim, 0, left.size, left.height)
    ensures BuiltFrom(Built(Node(left.node, s[m], right.node), right.size, right.height),
                      points, 0, numDim, -1, isize, -1)
    ensures right.height == FloorLog2(|points|)
  {
    MedianNodeBuilt(points, s, m, 0, numDim, -1, isize, -1, left, right);
    RootHeight(|points|, right.height);
  }

  lemma RootHeight(n: nat, h: int)
    requires n > 0 && h == CounterAfter(n, -1, -1)
    ensures h == FloorLog2(n)
  {
    CounterAfterIsDeepest(n, -1, -1);
  }

  /** After `build` on a fresh tree the class invariant holds and the size
      is the batch length. */
  lemma BuildValid(t: KDT, points: seq<Point>)
    requires Valid(t) && t.root == Nil
    requires |points| > 0 ==> |points[0]| >= 1 && Uniform(points, |points[0]|)
    ensures Valid(Build(t, points))
    ensures Build(t, points).size == |points|
    ensures |points| > 0 ==> Build(t, points).height == FloorLog2(|points|)
  {
    if |points| > 0 {
      var r := Build(t, points);
      assert |Elements(r.root)| == |multiset(Elements(r.root))|;
    }
  }

  /** `size`: the node counter, which on a valid tree counts the points. */
  function Size(t: KDT): (r: nat)
    ensures Valid(t) ==> r == |Elements(t.root)|
  {
    t.size
  }

  /** `height`: the height counter, which on a valid tree is the height,
      -1 exactly for the empty tree. */
  function Height(t: KDT): (r: int)
    ensures Valid(t) ==> r == TreeHeight(t.root) && (r == -1 <==> t.root.Nil?)
  {
    t.height
  }
}
