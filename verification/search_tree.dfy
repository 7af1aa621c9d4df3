/**
  The binary search tree of unique integers: the tree record with its node
  count, and the operations that create, query, grow and shrink it.
 */
module SearchTree {
  import opened Trees

  /** The tree record: `count` as the program keeps it (a C `int`, so it is
      not constrained to be non-negative) and the root node. */
  datatype BinaryTree = BinaryTree(count: int, root: Tree)

  /** What every operation is meant to keep: the ordering property, and a
      `count` equal to the number of nodes. */
  predicate Valid(t: BinaryTree)
  {
    IsBST(t.root) && t.count == Size(t.root)
  }

  /** A fresh tree: no nodes and a zero count. */
  function CreateTree(): (r: BinaryTree)
    ensures Valid(r)
    ensures Keys(r.root) == {} && r.count == 0
  {
    BinaryTree(0, Leaf)
  }

  /** True exactly when the root pointer is null. */
  function IsEmpty(root: Tree): (empty: bool)
    ensures empty <==> Keys(root) == {}
    ensures empty <==> Size(root) == 0
  {
    root == Leaf
  }

  /** A valid tree is empty exactly when its count is zero. */
  lemma EmptyIffCountZero(t: BinaryTree)
    requires Valid(t)
    ensures IsEmpty(t.root) <==> t.count == 0
  {
  }

  /** The search descent: stop on an equal value, go left when the node's
      value is larger, right otherwise; falling off the tree means absent. */
  function Contains(t: Tree, v: int): (found: bool)
    ensures found ==> v in Keys(t)
    ensures IsBST(t) ==> (found <==> v in Keys(t))
  {
    match t
    case Leaf => false
    case Node(l, n, r) =>
      if n == v then true
      else if n > v then Contains(l, v)
      else Contains(r, v)
  }

  /** The iterative search over the tree record. An empty tree reports that
      it cannot be searched and yields not-found; the tree is never
      changed, since it is passed by value. */
  method FindNode(t: BinaryTree, v: int) returns (found: bool)
    ensures found == Contains(t.root, v)
    ensures found ==> v in Keys(t.root)
    ensures IsBST(t.root) ==> (found <==> v in Keys(t.root))
  {
    found := false;
    if t.root == Leaf {
      // the program reports "Cannot search an empty tree." here
    } else {
      var current := t.root;
      while current != Leaf && !found
        invariant found ==> current.Node? && current.num == v
        invariant Contains(t.root, v) == (found || Contains(current, v))
        decreases Size(current), if found then 0 else 1
      {
        if current.num == v {
          found := true;
        } else if current.num > v {
          current := current.left;
        } else {
          current := current.right;
        }
      }
    }
  }

  /** Outcome of the insertion descent: the value met on the way down, or
      the tree with a new leaf hung where the descent fell off. */
  datatype Placement = Duplicate | Placed(tree: Tree)

  /** The insertion descent: an equal value stops it, a smaller value than
      the node's goes left, any other goes right, and the new node becomes
      the null child the descent reaches. */
  function Place(t: Tree, v: int): (p: Placement)
    ensures p.Duplicate? ==> v in Keys(t)
    ensures p.Placed? ==> Keys(p.tree) == Keys(t) + {v} && Size(p.tree) == Size(t) + 1
    ensures IsBST(t) ==> (p.Duplicate? <==> v in Keys(t))
    ensures IsBST(t) && p.Placed? ==> IsBST(p.tree)
  {
    match t
    case Leaf => Placed(Node(Leaf, v, Leaf))
    case Node(l, n, r) =>
      if n == v then Duplicate
      else if n > v then
        match Place(l, v)
        case Duplicate => Duplicate
        case Placed(l') => Placed(Node(l', n, r))
      else
        match Place(r, v)
        case Duplicate => Duplicate
        case Placed(r') => Placed(Node(l, n, r'))
  }

  /** Insert `v`, rejecting a duplicate. On a non-empty tree the count is
      raised before the descent and lowered again when a duplicate is met,
      so a rejected insertion leaves the record as it was. */
  function InsertNode(t: BinaryTree, v: int): (r: BinaryTree)
    ensures Keys(r.root) == Keys(t.root) + {v}
    ensures r.count - t.count == Size(r.root) - Size(t.root)
    ensures t.root == Leaf ==> r.root == Node(Leaf, v, Leaf) && r.count == t.count + 1
    ensures IsBST(t.root) && v in Keys(t.root) ==> r == t
    ensures IsBST(t.root) && v !in Keys(t.root) ==>
              && IsBST(r.root)
              && r.count == t.count + 1
              && Size(r.root) == Size(t.root) + 1
    ensures Valid(t) ==> Valid(r)
  {
    if t.root == Leaf then
      BinaryTree(t.count + 1, Node(Leaf, v, Leaf))
    else
      var raised := t.count + 1;
      match Place(t.root, v)
      case Duplicate => BinaryTree(raised - 1, t.root)
      case Placed(root') => BinaryTree(raised, root')
  }

  /** The file-loading loop: insert the values one at a time, in order. */
  function InsertAll(t: BinaryTree, xs: seq<int>): (r: BinaryTree)
    ensures Keys(r.root) == Keys(t.root) + set x | x in xs
    ensures Valid(t) ==> Valid(r)
    decreases |xs|
  {
    if xs == [] then t
    else
      var r := InsertAll(InsertNode(t, xs[0]), xs[1..]);
      assert (set x | x in xs) == {xs[0]} + set x | x in xs[1..];
      r
  }

  /** Loading values that are pairwise distinct and not yet stored raises
      the count by exactly their number. */
  lemma {:induction false} InsertAllFresh(t: BinaryTree, xs: seq<int>)
    requires Valid(t)
    requires forall i, j :: 0 <= i < j < |xs| ==> xs[i] != xs[j]
    requires forall i :: 0 <= i < |xs| ==> xs[i] !in Keys(t.root)
    ensures InsertAll(t, xs).count == t.count + |xs|
    decreases |xs|
  {
    if xs != [] {
      var t' := InsertNode(t, xs[0]);
      forall i | 0 <= i < |xs[1..]| ensures xs[1..][i] !in Keys(t'.root) {
        assert xs[1..][i] == xs[i + 1] && xs[i + 1] != xs[0];
      }
      InsertAllFresh(t', xs[1..]);
    }
  }

  /** Loading pairwise distinct values into a fresh tree gives a tree that
      counts them all and lists exactly them in ascending order. */
  lemma LoadDistinct(xs: seq<int>)
    requires forall i, j :: 0 <= i < j < |xs| ==> xs[i] != xs[j]
    ensures var r := InsertAll(CreateTree(), xs);
            && Valid(r)
            && r.count == |xs|
            && StrictlyIncreasing(InOrder(r.root))
            && forall x :: x in InOrder(r.root) <==> x in xs
  {
    var r := InsertAll(CreateTree(), xs);
    InsertAllFresh(CreateTree(), xs);
    InOrderSorted(r.root);
    InOrderKeys(r.root);
  }

  /** The in-order predecessor walk of the two-children case, started at
      the left child: follow right children to the end, and return the value
      found there together with the tree in which that node is replaced by
      its own left child. */
  function RemoveMax(t: Tree): (r: (int, Tree))
    requires t.Node?
    ensures r.0 in Keys(t)
    ensures Keys(t) == Keys(r.1) + {r.0}
    ensures Size(r.1) == Size(t) - 1
    ensures IsBST(t) ==> IsBST(r.1) && r.0 !in Keys(r.1)
    ensures IsBST(t) ==> forall k :: k in Keys(t) ==> k <= r.0
  {
    if t.right == Leaf then (t.num, t.left)
    else
      var (m, rest) := RemoveMax(t.right);
      (m, Node(t.left, t.num, rest))
  }

  /** Remove the node at the top of a non-empty subtree: with at most one
      child it is replaced by that child (by nothing when it has none), with
      two children it takes its in-order predecessor's value and the
      predecessor node is spliced out. */
  function RemoveRoot(t: Tree): (r: Tree)
    requires t.Node?
    ensures Size(r) == Size(t) - 1
    ensures Keys(r) <= Keys(t) <= Keys(r) + {t.num}
    ensures t.left == Leaf ==> r == t.right
    ensures t.left != Leaf && t.right == Leaf ==> r == t.left
    ensures t.left != Leaf && t.right != Leaf ==>
              r.Node? && r.right == t.right && r.num in Keys(t.left)
  {
    if t.left == Leaf && t.right == Leaf then
      // no children: the tree becomes empty
      Leaf
    else if t.left == Leaf then
      t.right
    else if t.right == Leaf then
      t.left
    else
      var (m, rest) := RemoveMax(t.left);
      Node(rest, m, t.right)
  }

  /** On a search tree, removing the top node keeps the ordering and removes
      exactly the top value; in the two-children case the new top value is
      the largest of the left subtree, its in-order predecessor. */
  lemma RemoveRootKeepsOrder(t: Tree)
    requires t.Node?
    ensures IsBST(t) ==> IsBST(RemoveRoot(t)) && Keys(RemoveRoot(t)) == Keys(t) - {t.num}
    ensures IsBST(t) && t.left != Leaf && t.right != Leaf ==>
              forall k :: k in Keys(t.left) ==> k <= RemoveRoot(t).num
  {
    if IsBST(t) && t.left != Leaf && t.right != Leaf {
      var (m, rest) := RemoveMax(t.left);
      assert RemoveRoot(t) == Node(rest, m, t.right);
      assert m < t.num;
      forall k | k in Keys(rest) ensures k < m {
        assert k in Keys(t.left) && k != m;
      }
      forall k | k in Keys(t.right) ensures m < k {
        assert t.num < k;
      }
      assert t.num !in Keys(t.left) + Keys(t.right);
    }
  }

  /** Delete the ROOT node of the tree, whatever value was searched for
      before; on an empty tree it reports an error and changes nothing. This
      is the intended behaviour of the no-child case: the tree is emptied. */
  function DeleteNode(t: BinaryTree): (r: BinaryTree)
    ensures t.root == Leaf ==> r == t
    ensures t.root.Node? ==>
              && r.count == t.count - 1
              && Size(r.root) == Size(t.root) - 1
              && Keys(r.root) <= Keys(t.root)
    ensures t.root.Node? && IsBST(t.root) ==> Keys(r.root) == Keys(t.root) - {t.root.num}
    ensures Valid(t) ==> Valid(r)
  {
    if t.root == Leaf then
      t
    else
      RemoveRootKeepsOrder(t.root);
      BinaryTree(t.count - 1, RemoveRoot(t.root))
  }

  /** Generalisation of the root deletion to any stored value: descend as
      the search does and remove the top node of the subtree holding `v`. */
  function RemoveValue(t: Tree, v: int): (r: Tree)
    ensures !Contains(t, v) ==> r == t
    ensures Contains(t, v) ==> Size(r) == Size(t) - 1
    ensures Keys(r) <= Keys(t)
    ensures IsBST(t) ==> IsBST(r) && Keys(r) == Keys(t) - {v}
  {
    match t
    case Leaf => Leaf
    case Node(l, n, rt) =>
      if n == v then RemoveRootKeepsOrder(t); RemoveRoot(t)
      else if n > v then Node(RemoveValue(l, v), n, rt)
      else Node(l, n, RemoveValue(rt, v))
  }

  /** Delete the node holding `v`, leaving the tree unchanged when the
      search does not find it. */
  function DeleteValue(t: BinaryTree, v: int): (r: BinaryTree)
    ensures !Contains(t.root, v) ==> r == t
    ensures Valid(t) ==> Valid(r) && Keys(r.root) == Keys(t.root) - {v}
    ensures Valid(t) ==> (v in Keys(t.root) <==> r.count == t.count - 1)
  {
    if !Contains(t.root, v) then t
    else BinaryTree(t.count - 1, RemoveValue(t.root, v))
  }

  /** When the value sits at the root, deleting it by value is exactly the
      program's root deletion. */
  lemma DeleteValueAtRoot(t: BinaryTree)
    requires t.root.Node?
    ensures DeleteValue(t, t.root.num) == DeleteNode(t)
  {
  }
}
