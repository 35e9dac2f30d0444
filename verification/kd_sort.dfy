/** Sorting a batch of points on one coordinate, the role `std::sort` with
    `CompareValueAt(d)` plays in the source. The KD-tree proofs use only the
    contract of `SortByDim` (a permutation, ordered on dimension `d`), so
    they hold for any sort; the tie order of equal coordinates here is that
    of this insertion sort, where the source's is unspecified. */
module DimSort {
  import opened KdPoint

  /** Every point of `s` has a coordinate `d`. */
  predicate HasDim(s: seq<Point>, d: nat)
  {
    forall i :: 0 <= i < |s| ==> d < |s[i]|
  }

  /** `s` is in non-decreasing order of coordinate `d`. */
  predicate SortedBy(s: seq<Point>, d: nat)
    requires HasDim(s, d)
  {
    forall i, j :: 0 <= i < j < |s| ==> s[i][d] <= s[j][d]
  }

  /** Inserts `x` before the first element whose coordinate `d` is not
      smaller than `x`'s. */
  function InsertByDim(x: Point, s: seq<Point>, d: nat): (r: seq<Point>)
    requires d < |x| && HasDim(s, d)
    ensures |r| == |s| + 1
    ensures multiset(r) == multiset(s) + multiset{x}
    ensures forall i :: 0 <= i < |r| ==> r[i] == x || r[i] in s
  {
    if |s| == 0 || x[d] <= s[0][d] then
      [x] + s
    else
      assert s == [s[0]] + s[1..];
      [s[0]] + InsertByDim(x, s[1..], d)
  }

  /** Every point of `s` has coordinate `d` at least `v`. */
  predicate AtLeast(s: seq<Point>, d: nat, v: int)
    requires HasDim(s, d)
  {
    forall i :: 0 <= i < |s| ==> v <= s[i][d]
  }

  /** Inserting a point keeps a lower bound that the point also meets. */
  lemma InsertKeepsBound(x: Point, s: seq<Point>, d: nat, v: int)
    requires d < |x| && HasDim(s, d) && AtLeast(s, d, v) && v <= x[d]
    ensures HasDim(InsertByDim(x, s, d), d) && AtLeast(InsertByDim(x, s, d), d, v)
  {
    var r := InsertByDim(x, s, d);
    forall i | 0 <= i < |r|
      ensures d < |r[i]| && v <= r[i][d]
    {
      if r[i] != x {
        var k :| 0 <= k < |s| && s[k] == r[i];
      }
    }
  }

  /** A sorted sequence below whose head no other element lies stays sorted
      with that head in front. */
  lemma ConsSorted(a: Point, rest: seq<Point>, d: nat)
    requires d < |a| && HasDim(rest, d) && SortedBy(rest, d) && AtLeast(rest, d, a[d])
    ensures HasDim([a] + rest, d) && SortedBy([a] + rest, d)
  {
    var r := [a] + rest;
    forall i, j | 0 <= i < j < |r|
      ensures r[i][d] <= r[j][d]
    {
      assert r[j] == rest[j - 1];
      if i > 0 {
        assert r[i] == rest[i - 1];
      }
    }
  }

  lemma {:induction false} InsertByDimSorted(x: Point, s: seq<Point>, d: nat)
    requires d < |x| && HasDim(s, d) && SortedBy(s, d)
    ensures HasDim(InsertByDim(x, s, d), d) && SortedBy(InsertByDim(x, s, d), d)
  {
    if |s| == 0 || x[d] <= s[0][d] {
      ConsSorted(x, s, d);
    } else {
      var tail := s[1..];
      assert AtLeast(tail, d, s[0][d]) by {
        forall i | 0 <= i < |tail|
          ensures s[0][d] <= tail[i][d]
        {
          assert tail[i] == s[i + 1];
        }
      }
      assert SortedBy(tail, d) by {
        forall i, j | 0 <= i < j < |tail|
          ensures tail[i][d] <= tail[j][d]
        {
          assert tail[i] == s[i + 1] && tail[j] == s[j + 1];
        }
      }
      InsertByDimSorted(x, tail, d);
      InsertKeepsBound(x, tail, d, s[0][d]);
      ConsSorted(s[0], InsertByDim(x, tail, d), d);
    }
  }

  /** A permutation of `s` ordered on coordinate `d`. */
  function SortByDim(s: seq<Point>, d: nat): (r: seq<Point>)
    requires HasDim(s, d)
    ensures |r| == |s|
    ensures multiset(r) == multiset(s)
    ensures HasDim(r, d) && SortedBy(r, d)
  {
    if |s| == 0 then []
    else
      assert s == [s[0]] + s[1..];
      var rest := SortByDim(s[1..], d);
      InsertByDimSorted(s[0], rest, d);
      InsertByDim(s[0], rest, d)
  }
}
