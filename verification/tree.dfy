/**
  Binary trees of integers, and the queries the search-tree invariants are
  stated with: the stored values, the number of nodes, the ordering property
  and the in-order listing.
 */
module Trees {

  /** A node holds one integer `num` and exclusively owns its two subtrees;
      `Leaf` stands for the null child pointer. */
  datatype Tree = Leaf | Node(left: Tree, num: int, right: Tree)

  /** The set of values stored in `t`. */
  function Keys(t: Tree): set<int>
  {
    match t
    case Leaf => {}
    case Node(l, n, r) => Keys(l) + {n} + Keys(r)
  }

  /** The number of nodes of `t`. */
  function Size(t: Tree): nat
  {
    match t
    case Leaf => 0
    case Node(l, _, r) => Size(l) + 1 + Size(r)
  }

  /** At every node, every value of the left subtree is smaller than the
      node's value and every value of the right subtree is larger. */
  predicate IsBST(t: Tree)
  {
    match t
    case Leaf => true
    case Node(l, n, r) =>
      && IsBST(l)
      && IsBST(r)
      && (forall k :: k in Keys(l) ==> k < n)
      && (forall k :: k in Keys(r) ==> n < k)
  }

  predicate StrictlyIncreasing(s: seq<int>)
  {
    forall i, j :: 0 <= i < j < |s| ==> s[i] < s[j]
  }

  /** The sequence of values the recursive in-order display prints:
      left subtree, node, right subtree. It has one entry per node. */
  function InOrder(t: Tree): (s: seq<int>)
    ensures |s| == Size(t)
  {
    match t
    case Leaf => []
    case Node(l, n, r) => InOrder(l) + [n] + InOrder(r)
  }

  /** The in-order listing holds exactly the stored values. */
  lemma {:induction false} InOrderKeys(t: Tree)
    ensures forall x :: x in InOrder(t) <==> x in Keys(t)
  {
    match t
    case Leaf =>
    case Node(l, n, r) =>
      InOrderKeys(l);
      InOrderKeys(r);
  }

  /** Values are unique in a search tree: it holds as many distinct values
      as it has nodes. */
  lemma {:induction false} BSTKeysCount(t: Tree)
    requires IsBST(t)
    ensures |Keys(t)| == Size(t)
  {
    match t
    case Leaf =>
    case Node(l, n, r) =>
      BSTKeysCount(l);
      BSTKeysCount(r);
      assert n !in Keys(l) && n !in Keys(r);
      assert Keys(l) !! Keys(r) by {
        forall k | k in Keys(l) ensures k !in Keys(r) {
          assert k < n;
        }
      }
      assert |Keys(l) + {n}| == |Keys(l)| + 1;
  }

  lemma ConcatIncreasing(a: seq<int>, n: int, b: seq<int>)
    requires StrictlyIncreasing(a) && StrictlyIncreasing(b)
    requires forall x :: x in a ==> x < n
    requires forall x :: x in b ==> n < x
    ensures StrictlyIncreasing(a + [n] + b)
  {
    var s := a + [n] + b;
    forall i, j | 0 <= i < j < |s| ensures s[i] < s[j] {
      if j < |a| {
        assert s[i] == a[i] && s[j] == a[j];
      } else if j == |a| {
        assert s[i] == a[i] && a[i] in a;
      } else if i < |a| {
        assert s[i] == a[i] && a[i] in a;
        assert s[j] == b[j - |a| - 1] && b[j - |a| - 1] in b;
      } else if i == |a| {
        assert s[j] == b[j - |a| - 1] && b[j - |a| - 1] in b;
      } else {
        assert s[i] == b[i - |a| - 1] && s[j] == b[j - |a| - 1];
      }
    }
  }

  /** The in-order listing of a search tree is in strictly ascending order. */
  lemma {:induction false} InOrderSorted(t: Tree)
    requires IsBST(t)
    ensures StrictlyIncreasing(InOrder(t))
  {
    match t
    case Leaf =>
    case Node(l, n, r) =>
      InOrderSorted(l);
      InOrderSorted(r);
      InOrderKeys(l);
      InOrderKeys(r);
      ConcatIncreasing(InOrder(l), n, InOrder(r));
  }

  /** Conversely, a tree whose in-order listing is strictly ascending is a
      search tree, so the ordering property is exactly sortedness of the
      listing. */
  lemma {:induction false} SortedInOrderIsBST(t: Tree)
    requires StrictlyIncreasing(InOrder(t))
    ensures IsBST(t)
  {
    match t
    case Leaf =>
    case Node(l, n, r) =>
      var a, b := InOrder(l), InOrder(r);
      var s := a + [n] + b;
      assert s == InOrder(t);
      assert StrictlyIncreasing(a) by {
        forall i, j | 0 <= i < j < |a| ensures a[i] < a[j] {
          assert a[i] == s[i] && a[j] == s[j];
        }
      }
      assert StrictlyIncreasing(b) by {
        forall i, j | 0 <= i < j < |b| ensures b[i] < b[j] {
          assert b[i] == s[|a| + 1 + i] && b[j] == s[|a| + 1 + j];
        }
      }
      SortedInOrderIsBST(l);
      SortedInOrderIsBST(r);
      InOrderKeys(l);
      InOrderKeys(r);
      forall k | k in Keys(l) ensures k < n {
        var i :| 0 <= i < |a| && a[i] == k;
        assert s[i] == k && s[|a|] == n;
      }
      forall k | k in Keys(r) ensures n < k {
        var j :| 0 <= j < |b| && b[j] == k;
        assert s[|a| + 1 + j] == k && s[|a|] == n;
      }
  }
}
