/** Binary-search-tree nodes with parent pointers, and `successor`.
    A node is identified by its address; its parent chain is represented as
    a zipper: a `Position` is a node (`focus`) together with the frames of
    its ancestors, nearest first. Each frame says on which side of the
    ancestor the path came down and holds the rest of that ancestor, so
    `Plug` rebuilds the whole tree from any position. */
module BstNode {
  import opened Wrappers

  /** `Nil` is the null pointer; a node carries its address and its key. */
  datatype Tree = Nil | Node(addr: nat, left: Tree, data: int, right: Tree)

  /** One stored node as the in-order walk meets it. */
  datatype Entry = Entry(addr: nat, data: int)

  /** An ancestor seen from below: `LeftOf` when the path went down its left
      child (the frame keeps its right child), `RightOf` when it went down
      its right child (the frame keeps its left child). */
  datatype Frame =
    | LeftOf(addr: nat, data: int, right: Tree)
    | RightOf(addr: nat, left: Tree, data: int)

  /** A pointer to a node: the node and its ancestors, parent first. */
  datatype Position = Position(focus: Tree, path: seq<Frame>)

  /** The nodes of a tree in in-order. */
  function Entries(t: Tree): (es: seq<Entry>)
  {
    match t
    case Nil => []
    case Node(a, l, d, r) => Entries(l) + [Entry(a, d)] + Entries(r)
  }

  /** The keys of a tree in in-order. */
  function Inorder(t: Tree): (keys: seq<int>)
  {
    match t
    case Nil => []
    case Node(_, l, d, r) => Inorder(l) + [d] + Inorder(r)
  }

  /** The keys are the data fields of the entries, position by position. */
  lemma {:induction false} InorderIsKeys(t: Tree)
    ensures |Inorder(t)| == |Entries(t)|
    ensures forall i :: 0 <= i < |Entries(t)| ==> Inorder(t)[i] == Entries(t)[i].data
  {
    match t
    case Nil =>
    case Node(a, l, d, r) =>
      InorderIsKeys(l);
      InorderIsKeys(r);
  }

  /** Strictly increasing. */
  predicate Ascending(s: seq<int>)
  {
    forall i, j :: 0 <= i < j < |s| ==> s[i] < s[j]
  }

  /** The tree the position points into. */
  function Plug(t: Tree, path: seq<Frame>): (r: Tree)
    decreases |path|
  {
    if |path| == 0 then t
    else match path[0]
      case LeftOf(a, d, r) => Plug(Node(a, t, d, r), path[1..])
      case RightOf(a, l, d) => Plug(Node(a, l, d, t), path[1..])
  }

  /** The entries the in-order walk meets before the subtree at the end of
      `path`. */
  function Before(path: seq<Frame>): (es: seq<Entry>)
    decreases |path|
  {
    if |path| == 0 then []
    else match path[0]
      case LeftOf(_, _, _) => Before(path[1..])
      case RightOf(a, l, d) => Before(path[1..]) + Entries(l) + [Entry(a, d)]
  }

  /** The entries the in-order walk meets after the subtree at the end of
      `path`. */
  function After(path: seq<Frame>): (es: seq<Entry>)
    decreases |path|
  {
    if |path| == 0 then []
    else match path[0]
      case LeftOf(a, d, r) => [Entry(a, d)] + Entries(r) + After(path[1..])
      case RightOf(_, _, _) => After(path[1..])
  }

  /** The in-order walk of the whole tree is the part before the subtree,
      the subtree, and the part after it. */
  lemma {:induction false} PlugEntries(t: Tree, path: seq<Frame>)
    ensures Entries(Plug(t, path)) == Before(path) + Entries(t) + After(path)
    decreases |path|
  {
    if |path| > 0 {
      match path[0]
      case LeftOf(a, d, r) =>
        PlugEntries(Node(a, t, d, r), path[1..]);
        Regroup5(Before(path[1..]), Entries(t), [Entry(a, d)], Entries(r), After(path[1..]));
      case RightOf(a, l, d) =>
        PlugEntries(Node(a, l, d, t), path[1..]);
        Regroup5(Before(path[1..]), Entries(l), [Entry(a, d)], Entries(t), After(path[1..]));
    }
  }

  /** The tree a position lives in. */
  function Whole(p: Position): (r: Tree)
  {
    Plug(p.focus, p.path)
  }

  /** The in-order rank of the node a position points to. */
  function Index(p: Position): (i: nat)
    requires p.focus.Node?
  {
    |Before(p.path)| + |Entries(p.focus.left)|
  }

  /** A position's rank holds its own node, and the whole walk is at least
      one longer than the rank. */
  lemma PositionEntry(p: Position)
    requires p.focus.Node?
    ensures Index(p) < |Entries(Whole(p))|
    ensures Entries(Whole(p))[Index(p)] == Entry(p.focus.addr, p.focus.data)
    ensures |Entries(Whole(p))| == Index(p) + 1 + |Entries(p.focus.right)| + |After(p.path)|
  {
    PlugEntries(p.focus, p.path);
    var f := p.focus;
    assert Entries(f) == Entries(f.left) + [Entry(f.addr, f.data)] + Entries(f.right);
    Regroup5(Before(p.path), Entries(f.left), [Entry(f.addr, f.data)], Entries(f.right), After(p.path));
  }

  /** `BSTNode(d)`: a node with the given key and no parent and no
      children. It is a whole tree of one entry with no successor. */
  function NewNode(addr: nat, d: int): (r: Position)
    ensures r.focus.Node? && Entries(Whole(r)) == [Entry(addr, d)]
    ensures Successor(r).None?
  {
    Position(Node(addr, Nil, d, Nil), [])
  }

  /** The walk down left children from `t`, as in the first branch of
      `successor` and in `first`: it stops at the leftmost node of `t`,
      which comes first in `t`'s in-order walk. */
  function Leftmost(t: Tree, path: seq<Frame>): (r: Position)
    requires t.Node?
    ensures r.focus.Node? && r.focus.left.Nil?
    ensures Whole(r) == Plug(t, path)
    ensures Index(r) == |Before(path)|
    decreases t
  {
    if t.left.Nil? then Position(t, path)
    else
      var path' := [LeftOf(t.addr, t.data, t.right)] + path;
      assert path'[1..] == path;
      Leftmost(t.left, path')
  }

  /** The second branch of `successor`: climb while the current node is a
      right child; the first ancestor reached from its left side is the
      answer, and running out of parents means there is none. That
      ancestor is the in-order entry right after the subtree `c` left
      behind, in the same tree, and there is none exactly when nothing
      follows `c`. */
  function SuccessorUp(c: Tree, path: seq<Frame>): (r: Option<Position>)
    ensures r.None? <==> |After(path)| == 0
    ensures r.Some? ==> r.value.focus.Node? && Whole(r.value) == Plug(c, path)
                        && Index(r.value) == |Before(path)| + |Entries(c)|
    decreases |path|
  {
    if |path| == 0 then None
    else match path[0]
      case LeftOf(a, d, r) => Some(Position(Node(a, c, d, r), path[1..]))
      case RightOf(a, l, d) => SuccessorUp(Node(a, l, d, c), path[1..])
  }

  /** `successor`: the leftmost node of the right subtree when there is one,
      otherwise the nearest ancestor of which this node is in the left
      subtree. It is the next node of the in-order walk of the same tree,
      and there is none exactly at the last node. */
  function Successor(p: Position): (r: Option<Position>)
    requires p.focus.Node?
    ensures r.None? <==> Index(p) + 1 == |Entries(Whole(p))|
    ensures r.Some? ==> r.value.focus.Node? && Whole(r.value) == Whole(p)
                        && Index(r.value) == Index(p) + 1
  {
    PositionEntry(p);
    var f := p.focus;
    if f.right.Node? then
      var path' := [RightOf(f.addr, f.left, f.data)] + p.path;
      assert path'[1..] == p.path;
      assert Before(path') == Before(p.path) + Entries(f.left) + [Entry(f.addr, f.data)];
      assert Plug(f.right, path') == Whole(p);
      Some(Leftmost(f.right, path'))
    else SuccessorUp(f, p.path)
  }

  /** In an ascending sequence the element after position `i` is the
      smallest one larger than `s[i]`. */
  lemma AscendingNext(s: seq<int>, i: nat)
    requires Ascending(s) && i + 1 < |s|
    ensures s[i] < s[i + 1]
    ensures forall x :: x in s && s[i] < x ==> s[i + 1] <= x
  {
    forall x | x in s && s[i] < x
      ensures s[i + 1] <= x
    {
      var j :| 0 <= j < |s| && s[j] == x;
      assert i < j;
    }
  }

  /** In an ascending sequence nothing is larger than the last element, and
      something is larger than any other. */
  lemma AscendingLast(s: seq<int>, i: nat)
    requires Ascending(s) && i < |s|
    ensures (forall x :: x in s ==> x <= s[i]) <==> i + 1 == |s|
  {
    if i + 1 < |s| {
      assert s[i + 1] in s;
    } else {
      forall x | x in s
        ensures x <= s[i]
      {
        var j :| 0 <= j < |s| && s[j] == x;
        assert j <= i;
      }
    }
  }

  /** The key at a position is the key at its rank in the in-order walk. */
  lemma KeyAtIndex(p: Position)
    requires p.focus.Node?
    ensures Index(p) < |Inorder(Whole(p))|
    ensures Inorder(Whole(p))[Index(p)] == p.focus.data
    ensures |Inorder(Whole(p))| == |Entries(Whole(p))|
  {
    PositionEntry(p);
    InorderIsKeys(Whole(p));
  }

  /** On a tree whose keys ascend in in-order, the successor holds the
      smallest key larger than the current one, and there is no successor
      exactly when no key is larger. */
  lemma SuccessorIsNextLarger(p: Position)
    requires p.focus.Node? && Ascending(Inorder(Whole(p)))
    ensures var s := Successor(p);
            && (s.Some? ==> s.value.focus.Node? && p.focus.data < s.value.focus.data
                            && forall x :: x in Inorder(Whole(p)) && p.focus.data < x ==>
                                 s.value.focus.data <= x)
            && (s.None? <==> forall x :: x in Inorder(Whole(p)) ==> x <= p.focus.data)
  {
    var keys := Inorder(Whole(p));
    KeyAtIndex(p);
    AscendingLast(keys, Index(p));
    var s := Successor(p);
    if s.Some? {
      KeyAtIndex(s.value);
      AscendingNext(keys, Index(p));
    }
  }
}
