/** The in-order iterator over a binary search tree: a possibly null pointer
    to a node, advanced with `successor`. The null pointer is the iterator
    past the end. */
module BstIterator {
  import opened Wrappers
  import opened BstNode

  datatype Iterator = Iterator(curr: Option<Position>)

  /** The iterator either is past the end or points to a node of `t`. */
  predicate Into(it: Iterator, t: Tree)
  {
    it.curr.Some? ==> it.curr.value.focus.Node? && Whole(it.curr.value) == t
  }

  /** The in-order rank the iterator stands at in `t`; past the end is the
      size of `t`. */
  function Rank(it: Iterator, t: Tree): (r: nat)
    requires Into(it, t)
  {
    if it.curr.None? then |Entries(t)| else Index(it.curr.value)
  }

  /** `operator*`: the key of the node pointed to. Dereferencing the end
      iterator is not defined. */
  function Deref(it: Iterator): (r: int)
    requires it.curr.Some? && it.curr.value.focus.Node?
    ensures var p := it.curr.value;
            Index(p) < |Inorder(Whole(p))| && r == Inorder(Whole(p))[Index(p)]
  {
    KeyAtIndex(it.curr.value);
    it.curr.value.focus.data
  }

  /** Pre-increment `++it`: moves to the successor, which is the next rank
      of the same tree, and past the end after the last node. */
  function PreIncrement(it: Iterator): (r: Iterator)
    requires it.curr.Some? && it.curr.value.focus.Node?
    ensures var t := Whole(it.curr.value);
            && Into(r, t)
            && Rank(r, t) == Index(it.curr.value) + 1
            && Rank(r, t) <= |Entries(t)|
  {
    PositionEntry(it.curr.value);
    Iterator(Successor(it.curr.value))
  }

  /** Post-increment `it++`: yields the iterator as it was and the advanced
      one. */
  function PostIncrement(it: Iterator): (r: (Iterator, Iterator))
    requires it.curr.Some? && it.curr.value.focus.Node?
    ensures var t := Whole(it.curr.value);
            && Into(r.0, t) && Into(r.1, t)
            && Rank(r.1, t) == Rank(r.0, t) + 1
            && r.0.curr.Some? && Deref(r.0) == Deref(it)
    ensures r.0 == it && r.1 == PreIncrement(it)
  {
    (it, PreIncrement(it))
  }

  /** `operator==`: the two pointers are the same, compared as addresses. */
  function Equal(a: Iterator, b: Iterator): (r: bool)
  {
    match (a.curr, b.curr)
    case (None, None) => true
    case (Some(p), Some(q)) => p.focus.Node? && q.focus.Node? && p.focus.addr == q.focus.addr
    case _ => false
  }

  /** `operator!=`: the negation of `operator==`. */
  function NotEqual(a: Iterator, b: Iterator): (r: bool)
  {
    !Equal(a, b)
  }

  /** No two entries of `s` share an address. */
  predicate DistinctSeq(s: seq<Entry>)
  {
    forall i, j :: 0 <= i < j < |s| ==> s[i].addr != s[j].addr
  }

  /** No two nodes of `t` share an address. */
  predicate DistinctAddrs(t: Tree)
  {
    DistinctSeq(Entries(t))
  }

  /** Over one tree whose nodes have distinct addresses, two iterators are
      equal exactly when they stand at the same rank, so comparing with the
      end iterator asks whether the walk is over. */
  lemma EqualIffSameRank(a: Iterator, b: Iterator, t: Tree)
    requires Into(a, t) && Into(b, t) && DistinctAddrs(t)
    ensures Equal(a, b) <==> Rank(a, t) == Rank(b, t)
    ensures NotEqual(a, b) <==> Rank(a, t) != Rank(b, t)
  {
    if a.curr.Some? {
      PositionEntry(a.curr.value);
    }
    if b.curr.Some? {
      PositionEntry(b.curr.value);
    }
  }
}
