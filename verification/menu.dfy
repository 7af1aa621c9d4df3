/**
  The pure parts of the console menu: the two input validators, and what the
  delete choice does to the tree once a number has been accepted.
 */
module Menu {
  import opened Trees
  import opened SearchTree

  /** The five menu choices. */
  datatype Command = Add | Delete | Print | Search | Exit

  /** The (upper-case) letter the menu shows for each choice. */
  function Letter(c: Command): char
  {
    match c
    case Add => 'A'
    case Delete => 'D'
    case Print => 'P'
    case Search => 'S'
    case Exit => 'E'
  }

  /** Accepts a selection exactly when it is the letter of some menu
      choice, so every choice can be made and nothing else is let through.
      The selection is upper-cased before it arrives here, so a lower-case
      letter is rejected. */
  function ValidateSelect(selection: char): (valid: bool)
    ensures valid <==> exists c :: Letter(c) == selection
  {
    assert Letter(Add) == 'A' && Letter(Delete) == 'D' && Letter(Print) == 'P';
    assert Letter(Search) == 'S' && Letter(Exit) == 'E';
    selection == 'A' || selection == 'D' || selection == 'P'
    || selection == 'S' || selection == 'E'
  }

  /** Accepts a number for add, delete or search when it is strictly
      positive: 1 is the smallest number let through. */
  function ValidateNum(num: int): (valid: bool)
    ensures valid <==> num >= 1
  {
    num > 0
  }

  predicate AllPositive(t: Tree)
  {
    forall k :: k in Keys(t) ==> k > 0
  }

  /** Adding only numbers the validator accepts keeps every stored value
      positive (values loaded from the file are not validated). */
  lemma ValidatedAddKeepsPositive(t: BinaryTree, num: int)
    requires AllPositive(t.root)
    ensures ValidateNum(num) ==> AllPositive(InsertNode(t, num).root)
    ensures !ValidateNum(num) ==> !AllPositive(InsertNode(t, num).root)
  {
  }

  /** The delete choice, with the evidently intended target: an empty tree
      is reported and left alone, a number the search does not find is
      reported and left alone, and otherwise the node holding the number is
      removed. */
  function ProcessDelete(t: BinaryTree, num: int): (r: BinaryTree)
    ensures IsEmpty(t.root) ==> r == t
    ensures !Contains(t.root, num) ==> r == t
    ensures Valid(t) ==> Valid(r) && Keys(r.root) == Keys(t.root) - {num}
    ensures Valid(t) && num in Keys(t.root) ==> r.count == t.count - 1
  {
    if IsEmpty(t.root) then
      t
    else if !Contains(t.root, num) then
      t
    else
      DeleteValue(t, num)
  }
}
