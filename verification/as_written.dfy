/**
  The two places where the program does not do what it evidently means to,
  modelled literally, with the inputs that show the difference from the
  corrected definitions in `SearchTree` and `Menu`.
 */
module AsWritten {
  import opened Trees
  import opened SearchTree
  import Menu

  /** Root deletion as the code is written: in the no-child case only a
      local copy of the root pointer is cleared, so the root node stays in
      the tree while the count is still lowered. Every other case is the
      corrected one. */
  function DeleteNode(t: BinaryTree): (r: BinaryTree)
    ensures t.root.Node? ==> r.count == t.count - 1
    ensures Keys(r.root) <= Keys(t.root)
    ensures Valid(t) && (t.root.Node? ==> t.root.left.Node? || t.root.right.Node?) ==> Valid(r)
  {
    if t.root == Leaf then
      t
    else if t.root.left == Leaf && t.root.right == Leaf then
      BinaryTree(t.count - 1, t.root)
    else
      BinaryTree(t.count - 1, RemoveRoot(t.root))
  }

  /** The literal root deletion differs from the corrected one exactly on a
      tree whose root has no children. */
  lemma DeleteNodeDiffersOnlyOnLoneRoot(t: BinaryTree)
    ensures (DeleteNode(t) != SearchTree.DeleteNode(t))
        <==> (t.root.Node? && t.root.left == Leaf && t.root.right == Leaf)
  {
  }

  /** Deleting the only node of a valid tree leaves a tree whose count says
      it is empty while its root still holds the value: the count no longer
      matches the nodes, the value is still found, and the tree is not
      reported empty. */
  lemma LoneRootDeleteBreaksCount(t: BinaryTree)
    requires Valid(t)
    requires t.root.Node? && t.root.left == Leaf && t.root.right == Leaf
    ensures !Valid(DeleteNode(t))
    ensures DeleteNode(t).count == 0
    ensures !IsEmpty(DeleteNode(t).root)
    ensures Contains(DeleteNode(t).root, t.root.num)
  {
    assert Size(t.root) == Size(t.root.left) + 1 + Size(t.root.right) == 1;
  }

  /** A second delete on such a tree drives the count negative. */
  lemma LoneRootDeletedTwice(v: int)
    ensures DeleteNode(DeleteNode(InsertNode(CreateTree(), v))).count == -1
  {
  }

  /** The delete choice as written: once the number is found, the ROOT is
      deleted with the literal root deletion, whichever node holds the
      number. A lone root therefore stays in place while the count drops. */
  function ProcessDelete(t: BinaryTree, num: int): (r: BinaryTree)
    ensures !Contains(t.root, num) ==> r == t
    ensures Contains(t.root, num) ==> r.count == t.count - 1
    ensures Valid(t) && Contains(t.root, num) && (t.root.left.Node? || t.root.right.Node?) ==>
              Valid(r) && Keys(r.root) == Keys(t.root) - {t.root.num}
    ensures Contains(t.root, num) && t.root.left == Leaf && t.root.right == Leaf ==>
              r.root == t.root
  {
    if IsEmpty(t.root) then
      t
    else if !Contains(t.root, num) then
      t
    else
      DeleteNode(t)
  }

  /** For every stored number other than the root's, the delete choice
      as written keeps the number and removes the root's value instead. */
  lemma ProcessDeleteMissesTarget(t: BinaryTree, num: int)
    requires Valid(t)
    requires num in Keys(t.root) && num != t.root.num
    ensures num in Keys(ProcessDelete(t, num).root)
    ensures t.root.num !in Keys(ProcessDelete(t, num).root)
    ensures Menu.ProcessDelete(t, num) != ProcessDelete(t, num)
  {
  }

  /** Concretely: deleting 5 from the tree holding only 5 keeps the node
      and leaves a count of zero. */
  lemma DeleteFiveKeepsFive()
    ensures ProcessDelete(InsertNode(CreateTree(), 5), 5) == BinaryTree(0, Node(Leaf, 5, Leaf))
  {
  }

  /** Concretely: after adding 50 and then 30, deleting 30 removes 50. */
  lemma DeleteThirtyRemovesFifty()
    ensures var t := InsertNode(InsertNode(CreateTree(), 50), 30);
            && Keys(ProcessDelete(t, 30).root) == {30}
            && Keys(Menu.ProcessDelete(t, 30).root) == {50}
  {
  }
}
