/** The binary search tree: a root pointer with a node count and a height
    counter, insertion without duplicates, lookup returning an iterator,
    and the in-order traversal through the iterator. Allocation is a
    parameter: `Insert` is told the address its new node gets. */
module Bst {
  import opened Wrappers
  import opened BstNode
  import opened BstIterator

  /** `root`, `isize` and `iheight`; the empty tree has height -1. */
  datatype BST = BST(root: Tree, size: nat, height: int)

  /** Number of edges on the longest root-to-leaf path; -1 when empty. */
  function TreeHeight(t: Tree): (h: int)
  {
    match t
    case Nil => -1
    case Node(_, l, _, r) => 1 + Max(TreeHeight(l), TreeHeight(r))
  }

  /** Keys in the left subtree are smaller and keys in the right subtree
      larger than the node's, at every node. */
  predicate SearchTree(t: Tree)
  {
    match t
    case Nil => true
    case Node(_, l, d, r) =>
      && SearchTree(l) && SearchTree(r)
      && (forall x :: x in Inorder(l) ==> x < d)
      && (forall x :: x in Inorder(r) ==> d < x)
  }

  /** What the class keeps true between calls: ordered keys, distinct node
      addresses, and counters that match the tree. */
  predicate Valid(b: BST)
  {
    && SearchTree(b.root)
    && DistinctAddrs(b.root)
    && b.size == |Entries(b.root)|
    && b.height == TreeHeight(b.root)
  }


  /** `s` is `a`, then `d`, then `c`, with every element of `a` below `d`
      and every element of `c` above it: this is ascending exactly when
      both parts are. */
  lemma AscendingConcat(a: seq<int>, d: int, c: seq<int>)
    ensures Ascending(a + [d] + c) <==>
            && Ascending(a) && Ascending(c)
            && (forall x :: x in a ==> x < d)
            && (forall x :: x in c ==> d < x)
  {
    var s := a + [d] + c;
    if Ascending(s) {
      forall x | x in a
        ensures x < d
      {
        var i :| 0 <= i < |a| && a[i] == x;
        assert s[i] == x && s[|a|] == d;
      }
      forall x | x in c
        ensures d < x
      {
        var j :| 0 <= j < |c| && c[j] == x;
        assert s[|a| + 1 + j] == x && s[|a|] == d;
      }
      forall i, j | 0 <= i < j < |a|
        ensures a[i] < a[j]
      {
        assert s[i] == a[i] && s[j] == a[j];
      }
      forall i, j | 0 <= i < j < |c|
        ensures c[i] < c[j]
      {
        assert s[|a| + 1 + i] == c[i] && s[|a| + 1 + j] == c[j];
      }
    }
    if && Ascending(a) && Ascending(c)
       && (forall x :: x in a ==> x < d)
       && (forall x :: x in c ==> d < x)
    {
      forall i, j | 0 <= i < j < |s|
        ensures s[i] < s[j]
      {
        if j < |a| {
          assert s[i] == a[i] && s[j] == a[j];
        } else if j == |a| {
          assert s[i] == a[i] && a[i] in a;
        } else if i < |a| {
          assert s[i] == a[i] && a[i] in a && s[j] == c[j - |a| - 1] && c[j - |a| - 1] in c;
        } else if i == |a| {
          assert s[j] == c[j - |a| - 1] && c[j - |a| - 1] in c;
        } else {
          assert s[i] == c[i - |a| - 1] && s[j] == c[j - |a| - 1];
        }
      }
    }
  }

  /** A tree is a search tree exactly when its in-order keys ascend. */
  lemma {:induction false} SearchTreeIffAscending(t: Tree)
    ensures SearchTree(t) <==> Ascending(Inorder(t))
  {
    match t
    case Nil =>
    case Node(_, l, d, r) =>
      SearchTreeIffAscending(l);
      SearchTreeIffAscending(r);
      AscendingConcat(Inorder(l), d, Inorder(r));
  }

  /** Where one descent of `insert` ends: the new tree, whether a node was
      added, and the depth the new node sits at (the loop's `height`). */
  datatype Placed = Placed(tree: Tree, inserted: bool, depth: nat)

  /** The descent of `insert` below a non-empty root: go left on a smaller
      key, right on a larger one, give up on an equal one, and hang a new
      node `addr` where the walk falls off the tree. */
  function InsertAt(t: Tree, item: int, addr: nat): (r: Placed)
    ensures !r.inserted ==> r.tree == t
    ensures r.inserted ==> TreeHeight(r.tree) == Max(TreeHeight(t), r.depth)
    decreases t
  {
    match t
    case Nil => Placed(Node(addr, Nil, item, Nil), true, 0)
    case Node(a, l, d, rt) =>
      if item < d then
        var sub := InsertAt(l, item, addr);
        if sub.inserted then Placed(Node(a, sub.tree, d, rt), true, sub.depth + 1)
        else Placed(t, false, 0)
      else if d < item then
        var sub := InsertAt(rt, item, addr);
        if sub.inserted then Placed(Node(a, l, d, sub.tree), true, sub.depth + 1)
        else Placed(t, false, 0)
      else Placed(t, false, 0)
  }

  /** A successful descent adds one occurrence of the key. */
  lemma {:induction false} InsertAtKeys(t: Tree, item: int, addr: nat)
    ensures var r := InsertAt(t, item, addr);
            r.inserted ==> multiset(Inorder(r.tree)) == multiset(Inorder(t)) + multiset{item}
    decreases t
  {
    match t
    case Nil =>
    case Node(a, l, d, rt) =>
      if item < d {
        var sub := InsertAt(l, item, addr);
        assert InsertAt(t, item, addr) ==
               if sub.inserted then Placed(Node(a, sub.tree, d, rt), true, sub.depth + 1)
               else Placed(t, false, 0);
        if sub.inserted {
          InsertAtKeys(l, item, addr);
          AddedLeft(Inorder(sub.tree), Inorder(l), [d] + Inorder(rt), item);
          Regroup3(Inorder(sub.tree), [d], Inorder(rt));
          Regroup3(Inorder(l), [d], Inorder(rt));
        }
      } else if d < item {
        var sub := InsertAt(rt, item, addr);
        assert InsertAt(t, item, addr) ==
               if sub.inserted then Placed(Node(a, l, d, sub.tree), true, sub.depth + 1)
               else Placed(t, false, 0);
        if sub.inserted {
          InsertAtKeys(rt, item, addr);
          AddedRight(Inorder(l) + [d], Inorder(sub.tree), Inorder(rt), item);
        }
      }
  }

  lemma AddedLeft<T>(x: seq<T>, y: seq<T>, c: seq<T>, item: T)
    requires multiset(x) == multiset(y) + multiset{item}
    ensures multiset(x + c) == multiset(y + c) + multiset{item}
  {
  }

  lemma AddedRight<T>(c: seq<T>, x: seq<T>, y: seq<T>, item: T)
    requires multiset(x) == multiset(y) + multiset{item}
    ensures multiset(c + x) == multiset(c + y) + multiset{item}
  {
  }

  /** The elements of `a` are those of `c` and `y`, when `a` has exactly
      one more `y` than `c`. */
  lemma AddedMembers<T>(a: seq<T>, c: seq<T>, y: T)
    requires multiset(a) == multiset(c) + multiset{y}
    ensures forall x :: x in a ==> x in c || x == y
  {
    forall x | x in a
      ensures x in c || x == y
    {
      assert x in multiset(a);
    }
  }

  lemma SplitLeft<T>(a: seq<T>, b: seq<T>, k: nat)
    requires k <= |a|
    ensures (a + b)[..k] == a[..k] && (a + b)[k..] == a[k..] + b
  {
  }

  lemma SplitRight<T>(a: seq<T>, b: seq<T>, k: nat)
    requires k <= |b|
    ensures (a + b)[..|a| + k] == a + b[..k] && (a + b)[|a| + k..] == b[k..]
  {
  }

  /** The new node enters the in-order walk at one place and everything
      else keeps its order. */
  lemma {:induction false} InsertAtEntries(t: Tree, item: int, addr: nat)
    ensures var r := InsertAt(t, item, addr);
            r.inserted ==>
              exists k :: 0 <= k <= |Entries(t)| &&
                Entries(r.tree) == Entries(t)[..k] + [Entry(addr, item)] + Entries(t)[k..]
    decreases t
  {
    var r := InsertAt(t, item, addr);
    var e := Entry(addr, item);
    match t
    case Nil =>
      assert Entries(r.tree) == Entries(t)[..0] + [e] + Entries(t)[0..];
    case Node(a, l, d, rt) =>
      if r.inserted {
        var node := [Entry(a, d)];
        if item < d {
          InsertAtEntries(l, item, addr);
          var sub := InsertAt(l, item, addr);
          var k :| 0 <= k <= |Entries(l)| &&
            Entries(sub.tree) == Entries(l)[..k] + [e] + Entries(l)[k..];
          var mid := node + Entries(rt);
          Regroup3(Entries(l), node, Entries(rt));
          assert Entries(t) == Entries(l) + mid;
          SplitLeft(Entries(l), mid, k);
          Regroup3(Entries(sub.tree), node, Entries(rt));
          assert Entries(r.tree) == Entries(sub.tree) + mid;
          Regroup4(Entries(l)[..k], [e], Entries(l)[k..], mid);
          assert Entries(r.tree) == Entries(t)[..k] + [e] + Entries(t)[k..];
        } else {
          InsertAtEntries(rt, item, addr);
          var sub := InsertAt(rt, item, addr);
          var k :| 0 <= k <= |Entries(rt)| &&
            Entries(sub.tree) == Entries(rt)[..k] + [e] + Entries(rt)[k..];
          var front := Entries(l) + node;
          SplitRight(front, Entries(rt), k);
          assert Entries(r.tree) == front + Entries(sub.tree);
          Regroup4(front, Entries(rt)[..k], [e], Entries(rt)[k..]);
          assert Entries(r.tree) == Entries(t)[..|front| + k] + [e] + Entries(t)[|front| + k..];
        }
      }
  }

  lemma SearchNode(a: nat, l: Tree, d: int, r: Tree)
    requires SearchTree(l) && SearchTree(r)
    requires forall x :: x in Inorder(l) ==> x < d
    requires forall x :: x in Inorder(r) ==> d < x
    ensures SearchTree(Node(a, l, d, r))
  {
  }

  /** On a search tree, the descent adds a node exactly when the key is
      absent, and the result is again a search tree. */
  lemma {:induction false} InsertAtSearch(t: Tree, item: int, addr: nat)
    requires SearchTree(t)
    ensures var r := InsertAt(t, item, addr);
            SearchTree(r.tree) && (r.inserted <==> item !in Inorder(t))
    decreases t, 1
  {
    match t
    case Nil =>
    case Node(a, l, d, rt) =>
      if item < d {
        InsertAtSearchLeft(t, item, addr);
      } else if d < item {
        InsertAtSearchRight(t, item, addr);
      } else {
        assert item in Inorder(t);
      }
  }

  /** `InsertAtSearch` when the descent goes left at the root. */
  lemma {:induction false} InsertAtSearchLeft(t: Tree, item: int, addr: nat)
    requires SearchTree(t) && t.Node? && item < t.data
    ensures var r := InsertAt(t, item, addr);
            SearchTree(r.tree) && (r.inserted <==> item !in Inorder(t))
    decreases t, 0
  {
    var sub := InsertAt(t.left, item, addr);
    assert SearchTree(sub.tree) && (sub.inserted <==> item !in Inorder(t.left)) by {
      InsertAtSearch(t.left, item, addr);
    }
    assert sub.inserted ==> forall x :: x in Inorder(sub.tree) ==> x in Inorder(t.left) || x == item by {
      if sub.inserted {
        InsertAtKeys(t.left, item, addr);
        AddedMembers(Inorder(sub.tree), Inorder(t.left), item);
      }
    }
    InsertLeftStep(t.addr, t.left, t.data, t.right, item, sub);
  }

  /** `InsertAtSearch` when the descent goes right at the root. */
  lemma {:induction false} InsertAtSearchRight(t: Tree, item: int, addr: nat)
    requires SearchTree(t) && t.Node? && t.data < item
    ensures var r := InsertAt(t, item, addr);
            SearchTree(r.tree) && (r.inserted <==> item !in Inorder(t))
    decreases t, 0
  {
    var sub := InsertAt(t.right, item, addr);
    assert SearchTree(sub.tree) && (sub.inserted <==> item !in Inorder(t.right)) by {
      InsertAtSearch(t.right, item, addr);
    }
    assert sub.inserted ==> forall x :: x in Inorder(sub.tree) ==> x in Inorder(t.right) || x == item by {
      if sub.inserted {
        InsertAtKeys(t.right, item, addr);
        AddedMembers(Inorder(sub.tree), Inorder(t.right), item);
      }
    }
    InsertRightStep(t.addr, t.left, t.data, t.right, item, sub);
  }

  /** The descent went left at a node of a search tree, and below it the
      claim of `InsertAtSearch` holds. */
  lemma InsertLeftStep(a: nat, l: Tree, d: int, rt: Tree, item: int, sub: Placed)
    requires SearchTree(l) && SearchTree(rt) && item < d
    requires forall x :: x in Inorder(l) ==> x < d
    requires forall x :: x in Inorder(rt) ==> d < x
    requires SearchTree(sub.tree) && (sub.inserted <==> item !in Inorder(l))
    requires sub.inserted ==> forall x :: x in Inorder(sub.tree) ==> x in Inorder(l) || x == item
    ensures var t := Node(a, l, d, rt);
            var r := if sub.inserted then Node(a, sub.tree, d, rt) else t;
            SearchTree(r) && (sub.inserted <==> item !in Inorder(t))
  {
    if sub.inserted {
      SearchNode(a, sub.tree, d, rt);
    }
    assert sub.inserted <==> item !in Inorder(Node(a, l, d, rt)) by {
      assert item !in Inorder(rt);
    }
  }

  /** The descent went right at a node of a search tree, and below it the
      claim of `InsertAtSearch` holds. */
  lemma InsertRightStep(a: nat, l: Tree, d: int, rt: Tree, item: int, sub: Placed)
    requires SearchTree(l) && SearchTree(rt) && d < item
    requires forall x :: x in Inorder(l) ==> x < d
    requires forall x :: x in Inorder(rt) ==> d < x
    requires SearchTree(sub.tree) && (sub.inserted <==> item !in Inorder(rt))
    requires sub.inserted ==> forall x :: x in Inorder(sub.tree) ==> x in Inorder(rt) || x == item
    ensures var t := Node(a, l, d, rt);
            var r := if sub.inserted then Node(a, l, d, sub.tree) else t;
            SearchTree(r) && (sub.inserted <==> item !in Inorder(t))
  {
    if sub.inserted {
      SearchNode(a, l, d, sub.tree);
    }
    assert sub.inserted <==> item !in Inorder(Node(a, l, d, rt)) by {
      assert item !in Inorder(l);
    }
  }

  /** Addresses of a sequence of entries are pairwise different. */
  lemma DistinctInsert(a: seq<Entry>, e: Entry, c: seq<Entry>)
    requires DistinctSeq(a + c)
    requires forall i :: 0 <= i < |a + c| ==> (a + c)[i].addr != e.addr
    ensures DistinctSeq(a + [e] + c)
  {
    var s := a + [e] + c;
    var old_ := a + c;
    forall i, j | 0 <= i < j < |s|
      ensures s[i].addr != s[j].addr
    {
      var i' := if i < |a| then i else i - 1;
      var j' := if j < |a| then j else j - 1;
      if i == |a| {
        assert s[j] == old_[j'];
      } else if j == |a| {
        assert s[i] == old_[i'];
      } else {
        assert s[i] == old_[i'] && s[j] == old_[j'];
      }
    }
  }

  /** `addr` is the address of no node of `t`: the node `new` allocates. */
  predicate Fresh(t: Tree, addr: nat)
  {
    forall i :: 0 <= i < |Entries(t)| ==> Entries(t)[i].addr != addr
  }

  /** `insert`: an empty tree gets the new node as its root at height 0;
      otherwise the descent places it, the size goes up by one and the
      height becomes the new node's depth if that is larger. A duplicate
      leaves everything as it was and reports false. */
  function Insert(b: BST, item: int, addr: nat): (r: (BST, bool))
    ensures !r.1 ==> r.0 == b
    ensures r.1 ==> r.0.size == b.size + 1
  {
    if b.root.Nil? then (BST(Node(addr, Nil, item, Nil), b.size + 1, 0), true)
    else
      var p := InsertAt(b.root, item, addr);
      if !p.inserted then (b, false)
      else (BST(p.tree, b.size + 1, Max(b.height, p.depth)), true)
  }

  /** Insertion of a fresh node keeps the class invariant, succeeds exactly
      for a key not yet stored, and adds that key and nothing else. */
  lemma InsertValid(b: BST, item: int, addr: nat)
    requires Valid(b) && Fresh(b.root, addr)
    ensures var r := Insert(b, item, addr);
            && Valid(r.0)
            && (r.1 <==> item !in Inorder(b.root))
            && multiset(Inorder(r.0.root)) ==
               multiset(Inorder(b.root)) + (if r.1 then multiset{item} else multiset{})
  {
    if b.root.Node? {
      var p := InsertAt(b.root, item, addr);
      assert SearchTree(p.tree) && (p.inserted <==> item !in Inorder(b.root)) by {
        InsertAtSearch(b.root, item, addr);
      }
      if p.inserted {
        assert multiset(Inorder(p.tree)) == multiset(Inorder(b.root)) + multiset{item} by {
          InsertAtKeys(b.root, item, addr);
        }
        assert DistinctAddrs(p.tree) && |Entries(p.tree)| == b.size + 1 by {
          InsertAtEntries(b.root, item, addr);
          var es := Entries(b.root);
          var k :| 0 <= k <= |es| && Entries(p.tree) == es[..k] + [Entry(addr, item)] + es[k..];
          FreshSplit(es, k, Entry(addr, item));
        }
      }
      PlacedValid(b, item, p);
    }
  }

  /** The last step of `InsertValid` below a non-empty root, on what the
      descent `p` achieved. */
  lemma PlacedValid(b: BST, item: int, p: Placed)
    requires Valid(b)
    requires SearchTree(p.tree) && (p.inserted <==> item !in Inorder(b.root))
    requires !p.inserted ==> p.tree == b.root
    requires p.inserted ==> && TreeHeight(p.tree) == Max(TreeHeight(b.root), p.depth)
                            && multiset(Inorder(p.tree)) == multiset(Inorder(b.root)) + multiset{item}
                            && DistinctAddrs(p.tree) && |Entries(p.tree)| == b.size + 1
    ensures var r := if !p.inserted then (b, false)
                     else (BST(p.tree, b.size + 1, Max(b.height, p.depth)), true);
            && Valid(r.0)
            && (r.1 <==> item !in Inorder(b.root))
            && multiset(Inorder(r.0.root)) ==
               multiset(Inorder(b.root)) + (if r.1 then multiset{item} else multiset{})
  {
  }

  /** Splitting a sequence of entries with distinct addresses, none of them
      `e`'s, and putting `e` in the gap keeps the addresses distinct. */
  lemma FreshSplit(es: seq<Entry>, k: nat, e: Entry)
    requires k <= |es| && DistinctSeq(es)
    requires forall i :: 0 <= i < |es| ==> es[i].addr != e.addr
    ensures DistinctSeq(es[..k] + [e] + es[k..])
  {
    assert es[..k] + es[k..] == es;
    DistinctInsert(es[..k], e, es[k..]);
  }

  /** `find`: the descent by comparisons, stopping at an equal key or when
      it falls off the tree (the end iterator). */
  method Find(b: BST, item: int) returns (it: Iterator)
    ensures Into(it, b.root)
    ensures it.curr.Some? ==> Deref(it) == item && item in Inorder(b.root)
    ensures SearchTree(b.root) ==> (it.curr.None? <==> item !in Inorder(b.root))
  {
    var cur := b.root;
    var path: seq<Frame> := [];
    while cur.Node? && cur.data != item
      invariant Plug(cur, path) == b.root
      invariant SearchTree(b.root) ==>
                  SearchTree(cur) && (item in Inorder(b.root) ==> item in Inorder(cur))
      decreases cur
    {
      var next: Tree;
      var path': seq<Frame>;
      if item < cur.data {
        next, path' := cur.left, [LeftOf(cur.addr, cur.data, cur.right)] + path;
      } else {
        next, path' := cur.right, [RightOf(cur.addr, cur.left, cur.data)] + path;
      }
      assert path'[1..] == path;
      cur, path := next, path';
    }
    if cur.Nil? {
      it := Iterator(None);
    } else {
      it := Iterator(Some(Position(cur, path)));
      KeyAtIndex(Position(cur, path));
    }
  }

  /** `first`: the leftmost node, the first of the in-order walk, or null
      for an empty tree. */
  function First(t: Tree): (r: Option<Position>)
    ensures r.None? <==> t.Nil?
    ensures r.Some? ==> r.value.focus.Node? && Whole(r.value) == t && Index(r.value) == 0
  {
    if t.Nil? then None else Some(Leftmost(t, []))
  }

  /** `begin`: the iterator at rank 0, which on an empty tree is the end. */
  function Begin(b: BST): (r: Iterator)
    ensures Into(r, b.root) && Rank(r, b.root) == 0
  {
    Iterator(First(b.root))
  }

  /** `end`: the null iterator, one past the last rank. */
  function End(b: BST): (r: Iterator)
    ensures Into(r, b.root) && Rank(r, b.root) == |Entries(b.root)|
  {
    Iterator(None)
  }

  /** On a valid tree `begin` points to the smallest key. */
  lemma BeginIsSmallest(b: BST)
    requires Valid(b) && b.root.Node?
    ensures var it := Begin(b);
            it.curr.Some? && forall x :: x in Inorder(b.root) ==> Deref(it) <= x
  {
    var it := Begin(b);
    var keys := Inorder(b.root);
    SearchTreeIffAscending(b.root);
    assert Deref(it) == keys[0];
    forall x | x in keys
      ensures keys[0] <= x
    {
      var j :| 0 <= j < |keys| && keys[j] == x;
    }
  }

  /** The constructor: an empty tree, with size 0, height -1, `empty()`
      true and `begin()` equal to `end()`. */
  function NewBST(): (r: BST)
    ensures Valid(r) && Entries(r.root) == []
    ensures Size(r) == 0 && Height(r) == -1 && Empty(r)
    ensures Equal(Begin(r), End(r))
  {
    BST(Nil, 0, -1)
  }

  /** `inorder`: collects the keys from `begin` to `end` through the
      iterator. */
  method InorderWalk(b: BST) returns (order: seq<int>)
    ensures order == Inorder(b.root)
  {
    var it := Begin(b);
    var stop := End(b);
    InorderIsKeys(b.root);
    order := [];
    while NotEqual(it, stop)
      invariant Into(it, b.root) && Rank(it, b.root) == |order|
      invariant |order| <= |Inorder(b.root)| && order == Inorder(b.root)[..|order|]
      decreases |Entries(b.root)| - |order|
    {
      order := order + [Deref(it)];
      it := PreIncrement(it);
    }
  }

  /** On a valid tree the traversal lists the keys from smallest to largest
      without repeats. */
  lemma InorderWalkAscending(b: BST)
    requires Valid(b)
    ensures Ascending(Inorder(b.root))
    ensures |Inorder(b.root)| == Size(b)
  {
    SearchTreeIffAscending(b.root);
  }

  /** `size`: the node counter, which on a valid tree counts the nodes. */
  function Size(b: BST): (r: nat)
    ensures Valid(b) ==> r == |Inorder(b.root)|
  {
    InorderIsKeys(b.root);
    b.size
  }

  /** `height`: the height counter, which on a valid tree is the height. */
  function Height(b: BST): (r: int)
    ensures Valid(b) ==> r == TreeHeight(b.root)
  {
    b.height
  }

  /** `empty`: no nodes counted and no root. */
  function Empty(b: BST): (r: bool)
    ensures Valid(b) ==> (r <==> |Inorder(b.root)| == 0)
  {
    InorderIsKeys(b.root);
    b.size == 0 && b.root.Nil?
  }
}
