/** Points and axis-aligned regions as the KD-tree sees them.
    A point is its coordinate sequence; the cached "distance to the last
    query" of the source is not part of a point here: search state is
    threaded through the searches instead. */
module KdPoint {

  /** A point of `|p|` dimensions with integer coordinates. */
  type Point = seq<int>

  /** One closed query interval [low, high] (the `pair<double, double>` of a
      query region). */
  datatype Interval = Interval(low: int, high: int)

  /** One interval per dimension. */
  type Region = seq<Interval>

  function Abs(x: int): (r: nat)
  {
    if x < 0 then -x else x
  }

  /** `n * n`, built as the sum of the first `n` odd numbers so that the
      definition stays linear (the product is `SqIsProduct`). */
  function SqNat(n: nat): (r: nat)
    decreases n
  {
    if n == 0 then 0 else SqNat(n - 1) + 2 * n - 1
  }

  /** The square of a coordinate difference. */
  function Sq(x: int): (r: nat)
  {
    SqNat(Abs(x))
  }

  lemma {:induction false} SqNatIsProduct(n: nat)
    ensures SqNat(n) == n * n
    decreases n
  {
    if n > 0 {
      SqNatIsProduct(n - 1);
      assert (n - 1) * (n - 1) == n * n - 2 * n + 1;
    }
  }

  /** `Sq` is the arithmetic square. */
  lemma SqIsProduct(x: int)
    ensures Sq(x) == x * x
  {
    SqNatIsProduct(Abs(x));
    assert Abs(x) * Abs(x) == x * x;
  }

  lemma {:induction false} SqNatMonotone(a: nat, b: nat)
    requires a <= b
    ensures SqNat(a) <= SqNat(b)
    decreases b
  {
    if a < b {
      SqNatMonotone(a, b - 1);
    }
  }

  /** Squared Euclidean distance: the sum over dimensions of the squared
      coordinate differences. */
  function SqDist(p: Point, q: Point): (r: int)
    requires |p| == |q|
    ensures r >= 0
    ensures |p| == 0 ==> r == 0
  {
    if |p| == 0 then 0 else Sq(p[0] - q[0]) + SqDist(p[1..], q[1..])
  }

  /** Dimension `d` of `p` lies in the closed interval `region[d]`. */
  predicate InInterval(p: Point, region: Region, d: nat)
    requires d < |p| && d < |region|
  {
    region[d].low <= p[d] <= region[d].high
  }

  /** Every coordinate of `p` lies in the interval of its dimension. */
  predicate InRegion(p: Point, region: Region)
    requires |p| <= |region|
  {
    forall d :: 0 <= d < |p| ==> InInterval(p, region, d)
  }

  /** The squared distance is at least the squared gap in any one
      dimension: the fact that makes branch-and-bound pruning sound. */
  lemma {:induction false} SqDistAtLeastGap(p: Point, q: Point, k: nat)
    requires |p| == |q| && k < |p|
    ensures Sq(p[k] - q[k]) <= SqDist(p, q)
  {
    if k == 0 {
      assert SqDist(p[1..], q[1..]) >= 0;
    } else {
      SqDistAtLeastGap(p[1..], q[1..], k - 1);
      assert p[1..][k - 1] == p[k] && q[1..][k - 1] == q[k];
    }
  }

  /** Squares grow with the gap: a point farther from `v` on the same side
      than `n` has a larger squared gap. Stated for both sides. */
  lemma SqGapMonotone(x: int, n: int, v: int)
    requires x <= n <= v || v <= n <= x
    ensures Sq(n - v) <= Sq(x - v)
  {
    SqNatMonotone(Abs(n - v), Abs(x - v));
  }

  /** The squared distance is zero exactly on equal points. */
  lemma {:induction false} SqDistZeroIffEqual(p: Point, q: Point)
    requires |p| == |q|
    ensures SqDist(p, q) == 0 <==> p == q
  {
    if |p| > 0 {
      SqDistZeroIffEqual(p[1..], q[1..]);
      if p == q {
        assert p[1..] == q[1..];
      } else if p[0] == q[0] {
        assert p == [p[0]] + p[1..] && q == [q[0]] + q[1..];
      }
    }
  }
}
