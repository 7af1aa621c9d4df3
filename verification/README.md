# Binary search tree of unique integers

This project models the core of a small C++ console program that loads integers
from a text file into an unbalanced binary search tree. It then lets the user
add, delete, search for and print them. The model covers the tree itself:

- the node and tree records;
- creating the tree and testing it for emptiness;
- insertion with duplicate rejection and the optimistic count bump;
- the search descent;
- root deletion, with its four cases and the in-order predecessor;
- the in-order listing;
- the two pure input validators of the menu.

Everything is modelled functionally. A `Tree` is `Leaf | Node(left, num, right)`,
where `Leaf` stands for a null pointer. The record `BinaryTree(count, root)`
stands for the program's `binaryTree` struct. The invariants are stated with
`Keys` (the stored values), `Size` (the number of nodes), `IsBST` (the ordering
property) and `InOrder` (the listing the display prints). `Valid` bundles the
two invariants every operation is meant to keep: the ordering property, and
`count == Size(root)`.

Modules:

- `Trees` (tree.dfy): the tree datatype, its queries, and the in-order listing lemmas.
- `SearchTree` (search_tree.dfy): the tree record and its operations.
- `Menu` (menu.dfy): the validators and the delete choice as evidently intended.
- `AsWritten` (as_written.dfy): the two defects, modelled literally.
- `Scenarios` (scenarios.dfy): small concrete runs.

In the C struct `count` is a signed 32-bit `int`. The model keeps it signed,
so it can go negative, but drops the 32-bit width (see "## Left out"). The
defective no-child delete below does drive it negative.

## Model

| member | source | states |
|---|---|---|
| Trees.InOrder | main.cpp:876-889 | the in-order listing has one entry per node |
| Trees.InOrderKeys | main.cpp:876-889 | the listing holds exactly the stored values |
| Trees.InOrderSorted | main.cpp:876-889 | on a search tree the listing is strictly ascending |
| Trees.SortedInOrderIsBST | main.cpp:876-889 | a tree whose listing is strictly ascending is a search tree, so ordering and sorted listing are equivalent |
| Trees.BSTKeysCount | main.cpp:694-701 | a search tree holds no duplicates: its number of distinct values equals its number of nodes |
| SearchTree.CreateTree | main.cpp:575-596 | the new tree has no values, a zero count, and satisfies both invariants |
| SearchTree.IsEmpty | main.cpp:607-619 | true exactly when the tree stores no value, i.e. has no node |
| SearchTree.EmptyIffCountZero | main.cpp:607-619 | on a valid tree, emptiness coincides with a zero count |
| SearchTree.Contains | main.cpp:755-777 | the descent only reports stored values, and on a search tree it reports exactly the stored values |
| SearchTree.FindNode | main.cpp:738-781 | the loop agrees with the recursive descent; an empty tree is not-found; on a search tree found iff the value is stored; the tree is not changed |
| SearchTree.Place | main.cpp:685-724 | the descent stops on a duplicate only if the value is stored (exactly then on a search tree); otherwise the value is added as one new node and the ordering is kept |
| SearchTree.InsertNode | main.cpp:661-726 | afterwards the value is stored and nothing else was added; the count changes by the number of nodes added; on an empty tree the root is the single new node and the count rises by one; a duplicate leaves the record unchanged; a fresh value keeps the ordering and raises count and size by one; validity is preserved |
| SearchTree.InsertAll | main.cpp:188-191 | loading a sequence adds exactly its values and preserves validity |
| SearchTree.InsertAllFresh | main.cpp:188-191 | loading pairwise distinct new values raises the count by their number |
| SearchTree.LoadDistinct | main.cpp:188-200 | loading N distinct values into a new tree gives a valid tree with count N whose listing is ascending and holds exactly those values |
| SearchTree.RemoveMax | main.cpp:841-860 | the walk returns a stored value; it is the maximum on a search tree; it is spliced out leaving one node fewer and exactly the other values |
| SearchTree.RemoveRoot | main.cpp:806-865 | one node fewer, no value added, at most the old root value lost; no left child gives the right subtree; only a left child gives the left subtree; two children give a root holding a value of the left subtree over the same right subtree |
| SearchTree.RemoveRootKeepsOrder | main.cpp:839-865 | on a search tree, removing the top node keeps the ordering and removes exactly the old root value; with two children the new root value is the largest of the left subtree (the in-order predecessor) |
| SearchTree.DeleteNode | main.cpp:791-866 | an empty tree is left unchanged; otherwise count and size drop by one, no value is added, on a search tree exactly the root value is removed, and validity is preserved |
| SearchTree.RemoveValue | main.cpp:456-469 | an absent value leaves the tree unchanged; a found one removes one node; on a search tree exactly that value goes and the ordering is kept |
| SearchTree.DeleteValue | main.cpp:456-469 | a value the search misses leaves the record unchanged; on a valid tree the result is valid, lacks exactly that value, and the count drops by one iff it was stored |
| SearchTree.DeleteValueAtRoot | main.cpp:791-866 | deleting the root's value by value is exactly the root deletion |
| Menu.ValidateSelect | main.cpp:312-328 | a selection is accepted iff it is the letter of one of the five menu choices A, D, P, S, E; anything else, lower-case letters included, is rejected |
| Menu.ValidateNum | main.cpp:339-354 | a number is accepted iff it is at least 1; what this keeps in the tree is stated by Menu.ValidatedAddKeepsPositive |
| Menu.ValidatedAddKeepsPositive | main.cpp:339-354 | adding a number the validator accepts (strictly positive) keeps all stored values positive, and adding one it rejects would break that |
| Menu.ProcessDelete | main.cpp:415-476 | an empty tree or a value not found leaves the record unchanged; on a valid tree exactly the entered value is removed and the count drops by one |
| AsWritten.DeleteNode | main.cpp:791-866 | the literal root deletion: the count drops by one on a non-empty tree, no value is added, and validity survives unless the root has no children |
| AsWritten.DeleteNodeDiffersOnlyOnLoneRoot | main.cpp:808-815 | the literal deletion differs from the corrected one exactly when the root has no children |
| AsWritten.LoneRootDeleteBreaksCount | main.cpp:808-815 | deleting the only node leaves count 0 while the node is still present, still found, and the tree is not reported empty |
| AsWritten.LoneRootDeletedTwice | main.cpp:808-815 | deleting a lone root twice drives the count to -1 |
| AsWritten.ProcessDelete | main.cpp:452-469 | the literal delete choice, through the literal root deletion: a value not found leaves the record unchanged; a found one lowers the count by one; if the root has a child, validity is kept and the root's value is the one removed; if the root is alone, it stays in place |
| AsWritten.DeleteFiveKeepsFive | main.cpp:808-815 | deleting 5 from the tree holding only 5 leaves node 5 as root with count 0 |
| AsWritten.ProcessDeleteMissesTarget | main.cpp:456-469 | for every stored value other than the root's, the literal delete choice keeps that value, removes the root's, and differs from the intended one |
| AsWritten.DeleteThirtyRemovesFifty | main.cpp:456-469 | after adding 50 then 30, deleting 30 leaves {30} as written and {50} as intended |
| Scenarios.LoadFive | main.cpp:188-191 | loading 50, 30, 70, 20, 40 lists 20, 30, 40, 50, 70 with count 5 |
| Scenarios.DeleteRootWithTwoChildren | main.cpp:839-865 | the root deletion on the tree loaded with 50, 30, 70 puts the predecessor 30 at the root, lists 30, 70 and counts 2 |
| Scenarios.DuplicateRejected | main.cpp:694-700 | adding 10 twice leaves the one-node tree with count 1 |
| Scenarios.SearchAbsent | main.cpp:738-781 | searching 99 in the tree of 10, 20, 30 finds nothing |

## Left out

- Console and file I/O is not modelled: `main`, `OpenFiles`, `ReadFiles` beyond its insertion loop, `Menu`, `MenuSelect` and the re-prompting loops in `ProcessSelect` (main.cpp:76-565). Diagnostic messages written to `cout`/`cerr` are not modelled either; where the code prints one, the model only keeps the state change.
- `MenuSelect` upper-cases the selection before validation (main.cpp:298), and `Menu` handles `E` before calling the validator (main.cpp:240-247). Both are console glue.
- The search choice's subtree display (main.cpp:555-562) is left out. It dereferences `root->left` and `root->right` unconditionally, so it is a display defect, not tree logic.
- Memory management is left out: allocation-failure branches (main.cpp:581-585, main.cpp:636-641), the node leaked on a rejected duplicate (main.cpp:669), and `FreeNodes`/`DestroyTree` (main.cpp:899-921). Immutable datatypes have no allocation to fail or release. `DestroyTree` also leaves `root` and `count` as they were, so it has no observable effect on the record to model.
- `CreateNode` (main.cpp:630-650) is the `Node(Leaf, v, Leaf)` value built by insertion.
- The 32-bit width of `int` is not modelled. Stored values are only compared, never computed with. Overflow of `count` is not modelled either. It would take about 2^31 insertions, because the early `count++` (main.cpp:686) runs even for a duplicate that is then rejected. Or it would take about 2^31 repeated as-written deletes of a lone root (main.cpp:808-815).
- The field width of the printed listing (`setw(7)`, main.cpp:884) is not modelled. Neither is the `static lastDisplayed` variable (main.cpp:878), which is written but never read.
- SearchTree.RemoveValue and SearchTree.DeleteValue are a generalisation, not the code's behaviour. The code only ever deletes the root. They remove the node holding a given value by applying the root-deletion cases to the subtree whose root holds it.

## Findings

| source | as written | input that shows it | evidently intended | confidence | as-written member | corrected member |
|---|---|---|---|---|---|---|
| main.cpp:808-815 | in the no-child case only the local `temp` is set to null; `root` keeps the node, and `count` is still decremented | a tree holding only 5 with count 1: afterwards count is 0 but 5 is still the root and is still found; a second delete makes count -1 | the root becomes null, so the tree is empty with count 0 | high; not executed | AsWritten.DeleteNode, shown by AsWritten.LoneRootDeleteBreaksCount and AsWritten.LoneRootDeletedTwice | SearchTree.DeleteNode |
| main.cpp:456-469 | after the search finds the entered number, `DeleteNode` removes the root, whatever node holds the number | add 50, then 30, then delete 30: 50 is removed and 30 stays | the node holding the entered number is removed | high; not executed | AsWritten.ProcessDelete, shown by AsWritten.ProcessDeleteMissesTarget and AsWritten.DeleteThirtyRemovesFifty | Menu.ProcessDelete (through SearchTree.DeleteValue) |
