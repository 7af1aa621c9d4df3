/**
  Concrete runs of the tree operations on small inputs.
 */
module Scenarios {
  import opened Trees
  import opened SearchTree

  const Five: seq<int> := [50, 30, 70, 20, 40]

  /** The tree after loading the first `k` values of `Five`. */
  function FivePrefixTree(k: nat): BinaryTree
    requires k <= 5
  {
    match k
    case 0 => CreateTree()
    case 1 => BinaryTree(1, Node(Leaf, 50, Leaf))
    case 2 => BinaryTree(2, Node(Node(Leaf, 30, Leaf), 50, Leaf))
    case 3 => BinaryTree(3, Node(Node(Leaf, 30, Leaf), 50, Node(Leaf, 70, Leaf)))
    case 4 => BinaryTree(4, Node(Node(Node(Leaf, 20, Leaf), 30, Leaf), 50, Node(Leaf, 70, Leaf)))
    case _ => BinaryTree(5, Node(Node(Node(Leaf, 20, Leaf), 30, Node(Leaf, 40, Leaf)), 50, Node(Leaf, 70, Leaf)))
  }

  /** Each insertion of the load hangs the next value where expected. */
  lemma FiveStep(k: nat)
    requires k < 5
    ensures InsertNode(FivePrefixTree(k), Five[k]) == FivePrefixTree(k + 1)
  {
  }

  /** Loading the rest of `Five` from the tree of its first `k` values gives
      the tree of all five. */
  lemma {:induction false} LoadFiveFrom(k: nat)
    requires k <= 5
    ensures InsertAll(FivePrefixTree(k), Five[k..]) == FivePrefixTree(5)
    decreases 5 - k
  {
    if k < 5 {
      FiveStep(k);
      assert Five[k..][1..] == Five[k + 1..];
      LoadFiveFrom(k + 1);
    }
  }

  /** Loading 50, 30, 70, 20, 40 lists them in ascending order with a count
      of five. */
  lemma LoadFive()
    ensures var t := InsertAll(CreateTree(), [50, 30, 70, 20, 40]);
            && InOrder(t.root) == [20, 30, 40, 50, 70]
            && t.count == 5
  {
    LoadFiveFrom(0);
    assert Five[0..] == [50, 30, 70, 20, 40];
    FiveTreeInOrder();
  }

  lemma FiveTreeInOrder()
    ensures InOrder(FivePrefixTree(5).root) == [20, 30, 40, 50, 70]
  {
    assert InOrder(Node(Leaf, 20, Leaf)) == [20];
    assert InOrder(Node(Leaf, 40, Leaf)) == [40];
    assert InOrder(Node(Leaf, 70, Leaf)) == [70];
    assert InOrder(FivePrefixTree(5).root.left) == [20, 30, 40];
  }

  /** Deleting the root 50 from the tree loaded with 50, 30, 70 moves its
      predecessor 30 to the root. */
  lemma DeleteRootWithTwoChildren()
    ensures var t := DeleteNode(InsertAll(CreateTree(), [50, 30, 70]));
            && t.root.Node? && t.root.num == 30
            && InOrder(t.root) == [30, 70]
            && t.count == 2
  {
    FiveStep(0);
    FiveStep(1);
    FiveStep(2);
    var t3 := FivePrefixTree(3);
    assert InsertAll(t3, []) == t3;
    assert InsertAll(CreateTree(), [50, 30, 70]) == t3;
    assert InOrder(Node(Leaf, 70, Leaf)) == [70];
  }

  /** Adding 10 a second time is rejected and the count stays at one. */
  lemma DuplicateRejected()
    ensures var t := InsertNode(CreateTree(), 10);
            && InsertNode(t, 10) == t
            && t.count == 1
  {
  }

  /** Searching for 99 in the tree holding 10, 20, 30 finds nothing. */
  method SearchAbsent() returns (found: bool)
    ensures !found
  {
    var t := InsertAll(CreateTree(), [10, 20, 30]);
    found := FindNode(t, 99);
  }
}
