# Unbalanced binary search tree

A model of `BinarySearchTree.java`: an unbalanced binary search tree of
elements ordered by comparison, with the textbook maintenance operations
(insert ignoring duplicates, remove by successor replacement, contains,
findMin, findMax, isEmpty, makeEmpty) and the additions of this repository:
node count, fullness test, height, structural and element-wise comparison
of two trees, copy, mirror and mirror test, single left and right rotations
at a key, in-order printing and level-by-level printing.

Elements are integers, the element type of the driver. A node is the value
`Trees.Tree.Node(left, elem, right)`; an absent child is `Nil`. Each private
recursive helper of the source becomes a function from subtree to subtree
(or to a result); the public object becomes the class
`BinarySearchTrees.BinarySearchTree`, whose one field `root` is reassigned by
its methods exactly where the source assigns `root`. The two loops of the
source, findMax's walk down the right spine and printLevels' queue drain,
stay loops (`Maintenance.FindMaxNode`, `Traversal.LevelsOf` and
`Traversal.VisitLevel`), each proved against a specification function.

The contracts are stated against independent views of a tree: its element
set `Elems`, its in-order sequence `InOrder` (what printTree prints), its
node count `Size`, the ordering invariant `BST`, its shape `Shape`, a
recursive `Mirror`, and the depth-indexed `Level` sequences. A central fact
is `Trees.BSTIffInOrderIncreasing`: the ordering invariant holds exactly
when printTree's output strictly ascends. The tree does not keep the
ordering invariant as a class invariant, because mirror produces trees that
break it (`Structure.MirrorOfBSTIsNotBST`); operations that keep the
invariant say so conditionally.

Files: `trees.dfy` (nodes and views), `maintenance.dfy` (insert, remove,
contains, findMin, findMax), `structure.dfy` (nodeCount, isFull, height,
compareStructure, equals, copy, mirror, isMirror), `rotations.dfy`,
`traversal.dfy` (printLevels), `binary_search_tree.dfy` (the public
object) and `demo.dfy` (the scenario of the source's `main`).

In a few places the source's documentation and its code disagree, and the
model follows the code. The comments on the public findMin and findMax
(lines 58 and 69) say they return null on an empty tree. The code throws
UnderflowException instead, modelled as `Maintenance.Result.Underflow`. The
comment on the private contains (line 197) says it returns a node, but it
returns a boolean. The comment on the public contains (line 81) says "true
if not found", but it returns true when x is found.

## Model

| member | source | states |
|---|---|---|
| Trees.InOrderElems | BinarySearchTree.java:218-226 | printTree's in-order walk lists exactly the tree's elements, one entry per node |
| Trees.InOrder | BinarySearchTree.java:218-226 | the private printTree's walk (left subtree, element, right subtree) is empty exactly for an empty tree; characterised by InOrderElems and BSTIffInOrderIncreasing |
| Trees.IncreasingAround | BinarySearchTree.java:218-226 | an in-order sequence `left + [x] + right` ascends iff both sides ascend and x separates them |
| Trees.BSTIffInOrderIncreasing | BinarySearchTree.java:218-226 | the ordering invariant holds iff the printed in-order sequence strictly ascends |
| Trees.BSTSizeIsCard | BinarySearchTree.java:122-136 | a search tree stores no element twice: its node count equals the number of distinct elements |
| Maintenance.Insert | BinarySearchTree.java:122-136 | the elements afterwards are the old ones plus x; the ordering invariant is kept |
| Maintenance.Contains | BinarySearchTree.java:199-212 | a true answer means x is stored; on a search tree the answer is true iff x is stored |
| Maintenance.FindMinNode | BinarySearchTree.java:170-177 | Nil iff the tree is empty; otherwise a node without a left child holding the first in-order element, the least on a search tree |
| Maintenance.FindMaxNode | BinarySearchTree.java:184-191 | Nil iff the tree is empty; otherwise a node without a right child holding the last in-order element, the greatest on a search tree |
| Maintenance.Remove | BinarySearchTree.java:144-163 | no element is added; on a search tree exactly x is taken away and the ordering invariant is kept |
| Maintenance.InsertUnchangedIffContains | BinarySearchTree.java:122-136 | insert leaves the tree unchanged iff the descent finds x, and otherwise adds exactly one node |
| Maintenance.ContainsAfterInsert | BinarySearchTree.java:122-136 | after insert(x), contains(x) is true |
| Maintenance.InsertIdempotent | BinarySearchTree.java:37-45 | inserting the same element twice is the same as inserting it once |
| Maintenance.InsertIntoBST | BinarySearchTree.java:37-45 | on a search tree, inserting a stored element is a no-op and an absent one adds one node |
| Maintenance.RemoveAbsentIsNoOp | BinarySearchTree.java:47-54 | removing an element the descent does not find changes nothing |
| Maintenance.RemoveFromBST | BinarySearchTree.java:144-163 | on a search tree, remove is a no-op iff x is absent, and otherwise removes exactly one node |
| Maintenance.RemoveTwoChildren | BinarySearchTree.java:155-159 | the two-child case keeps the left subtree, takes the least element of the right subtree and removes it there |
| Structure.NodeCountFrom | BinarySearchTree.java:232-244 | the helper's count, with bases -1 and 0, is always one less than the number of nodes |
| Structure.IsFull | BinarySearchTree.java:250-269 | the private isFull with its early returns; a full tree has no one-child node; characterised exactly by IsFullIff and OneChildCount |
| Structure.IsFullIff | BinarySearchTree.java:250-269 | isFull holds iff no node anywhere has exactly one child |
| Structure.OneChildCount | BinarySearchTree.java:250-269 | isFull holds iff the number of one-child nodes is zero |
| Structure.IsFullCount | BinarySearchTree.java:250-269 | a non-empty tree has size + 1 = 2·leaves + one-child nodes, so it is full iff size = 2·leaves − 1 |
| Structure.Height | BinarySearchTree.java:442-448 | the height is −1 for an empty tree and below the node count, as each level holds a node |
| Structure.SizeBoundedByHeight | BinarySearchTree.java:442-448 | a tree of height h has at most 2^(h+1) − 1 nodes |
| Structure.CompareStructure | BinarySearchTree.java:279-288 | the private compareStructure; trees it accepts have equally many nodes; characterised exactly by CompareStructureIff |
| Structure.CompareStructureIff | BinarySearchTree.java:279-288 | compareStructure holds iff the two trees have the same shape, elements ignored |
| Structure.Equals | BinarySearchTree.java:294-302 | the private equals; trees it accepts are the same tree value; the converse is EqualsIff |
| Structure.EqualsIff | BinarySearchTree.java:294-302 | equals holds iff the two trees are the same tree value |
| Structure.EqualsImpliesSameStructure | BinarySearchTree.java:275-302 | equal trees have the same structure |
| Structure.Copy | BinarySearchTree.java:310-316 | the node-by-node copy is the same tree value as the original |
| Structure.CopyIsEqual | BinarySearchTree.java:304-316 | a copy is equal to, and has the structure of, its original |
| Structure.Mirror | BinarySearchTree.java:324-329 | the node-level mirror keeps the element set and the node count; see also MirrorInOrder and MirrorInvolution |
| Structure.MirrorInvolution | BinarySearchTree.java:324-329 | mirroring twice gives back the original tree |
| Structure.IsMirror | BinarySearchTree.java:338-348 | the private isMirror; trees it accepts hold the same elements and equally many nodes; characterised exactly by IsMirrorIff |
| Structure.IsMirrorIff | BinarySearchTree.java:338-348 | isMirror holds iff the second tree is the mirror of the first |
| Structure.IsMirrorOfMirror | BinarySearchTree.java:318-348 | every tree is a mirror of its mirror |
| Structure.MirrorInOrder | BinarySearchTree.java:324-329 | the mirror keeps elements and size, and its in-order walk is the original's reversed |
| Structure.MirrorOfBSTIsNotBST | BinarySearchTree.java:318-329 | the mirror of a search tree with two or more elements is not a search tree |
| Rotations.Find | BinarySearchTree.java:358-362 | the rotations' descent stops at a node iff contains finds the key, and that node holds the key |
| Rotations.RotateLeft | BinarySearchTree.java:354-375 | rotating left keeps the in-order sequence |
| Rotations.RotateRight | BinarySearchTree.java:381-402 | rotating right keeps the in-order sequence |
| Rotations.RotationsPreserveBST | BinarySearchTree.java:350-402 | each rotation keeps the ordering invariant, and never creates it |
| Rotations.RotateAbsentIsNoOp | BinarySearchTree.java:354-362 | rotating at a key the descent does not find changes nothing |
| Rotations.RotateRightUndoesRotateLeft | BinarySearchTree.java:350-402 | on a search tree, rotating right at the element that rotateLeft(k) lifted restores the tree |
| Rotations.RotateLeftUndoesRotateRight | BinarySearchTree.java:350-402 | on a search tree, rotating left at the element that rotateRight(k) lifted restores the tree |
| Traversal.FrontierNodes | BinarySearchTree.java:424-428 | only present children are queued: every queued entry is a node |
| Traversal.FrontierStep | BinarySearchTree.java:419-431 | visiting one level's queue, left child before right, yields the next level's nodes |
| Traversal.FrontierRoots | BinarySearchTree.java:419-431 | the elements printed for a level's queue are that level's elements, left to right |
| Traversal.FrontierEmptyIff | BinarySearchTree.java:413-417 | the queue is empty at the start of a round iff that round's depth exceeds the height |
| Traversal.LevelsOf | BinarySearchTree.java:408-436 | the queue drain prints exactly the level order of the tree |
| Traversal.VisitLevel | BinarySearchTree.java:419-431 | one round prints the level's elements and leaves exactly their children queued |
| Traversal.LevelOrderShape | BinarySearchTree.java:404-436 | printLevels prints height + 1 non-empty lines, line d being depth d, the first just the root |
| Traversal.LevelOrderHoldsAllElements | BinarySearchTree.java:404-436 | the lines together hold every element as many times as printTree prints it |
| BinarySearchTrees.BinarySearchTree.constructor | BinarySearchTree.java:32-35 | a new tree is empty |
| BinarySearchTrees.BinarySearchTree.Insert | BinarySearchTree.java:41-45 | the root becomes insert(x, root); the elements gain x; the ordering is kept; no change iff x was found |
| BinarySearchTrees.BinarySearchTree.Remove | BinarySearchTree.java:51-54 | the root becomes remove(x, root); no change if x is not found; on a search tree exactly x leaves |
| BinarySearchTrees.BinarySearchTree.FindMin | BinarySearchTree.java:60-65 | Underflow iff empty; otherwise the first printed element, the least on a search tree |
| BinarySearchTrees.BinarySearchTree.FindMax | BinarySearchTree.java:71-76 | Underflow iff empty; otherwise the last printed element, the greatest on a search tree |
| BinarySearchTrees.BinarySearchTree.Contains | BinarySearchTree.java:83-86 | true means stored; on a search tree true iff stored |
| BinarySearchTrees.BinarySearchTree.MakeEmpty | BinarySearchTree.java:91-94 | the tree holds no element afterwards |
| BinarySearchTrees.BinarySearchTree.IsEmpty | BinarySearchTree.java:100-103 | true iff the tree holds no element, that is, has no node |
| BinarySearchTrees.BinarySearchTree.PrintTree | BinarySearchTree.java:108-114 | prints every element, one line per node, ascending iff the ordering invariant holds |
| BinarySearchTrees.BinarySearchTree.NodeCount | BinarySearchTree.java:228-230 | the number of nodes; on a search tree the number of distinct elements |
| BinarySearchTrees.BinarySearchTree.IsFull | BinarySearchTree.java:246-248 | true iff no node has one child; for a non-empty tree iff size = 2·leaves − 1 |
| BinarySearchTrees.BinarySearchTree.CompareStructure | BinarySearchTree.java:275-277 | true iff both trees have the same shape |
| BinarySearchTrees.BinarySearchTree.Equals | BinarySearchTree.java:290-292 | true iff both roots are the same tree value, and then the structures agree |
| BinarySearchTrees.BinarySearchTree.Copy | BinarySearchTree.java:304-308 | a new tree object with the same tree, equal to and structured like this one |
| BinarySearchTrees.BinarySearchTree.Mirror | BinarySearchTree.java:318-322 | a new tree object holding the mirror: same elements and size, printed in reverse, a mirror of this one |
| BinarySearchTrees.BinarySearchTree.IsMirror | BinarySearchTree.java:334-336 | true iff the other tree is this tree's mirror |
| BinarySearchTrees.BinarySearchTree.RotateLeft | BinarySearchTree.java:350-352 | the root becomes rotateLeft(key, root); the printed order and the ordering are kept; an absent key changes nothing |
| BinarySearchTrees.BinarySearchTree.RotateRight | BinarySearchTree.java:377-379 | the root becomes rotateRight(key, root); the printed order and the ordering are kept; an absent key changes nothing |
| BinarySearchTrees.BinarySearchTree.PrintLevels | BinarySearchTree.java:404-406 | prints the level order, height + 1 lines, the first holding just the root |
| Demo.InsertAll | BinarySearchTree.java:485-493 | a run of inserts adds exactly its elements and keeps the ordering invariant |
| Demo.SampleBuilt | BinarySearchTree.java:485-493 | the driver's eight inserts build the sample tree |
| Demo.SampleIsBST | BinarySearchTree.java:485-493 | the sample tree is a search tree |
| Demo.SampleCounted | BinarySearchTree.java:496-503 | the sample tree has 8 nodes, height 3, and is not full |
| Demo.SamplePrinted | BinarySearchTree.java:515 | printTree prints 4 5 6 7 10 14 15 20 |
| Demo.SampleLevels | BinarySearchTree.java:565-566 | the sample tree's levels are 10 / 5 15 / 4 6 14 20 / 7 |
| Demo.SampleLevelOrder | BinarySearchTree.java:565-566 | printLevels prints 10 / 5 15 / 4 6 14 20 / 7 |
| Demo.SampleEditedBuilt | BinarySearchTree.java:523-524 | removing 14 and inserting 13 puts 13 where 14 was |
| Demo.SampleEdited | BinarySearchTree.java:518-529 | the trees have the same structure, and are not equal after the edit |
| Demo.SampleCopiedAndMirrored | BinarySearchTree.java:532-549 | the copy is equal, the mirror is a mirror and prints in descending order |
| Demo.SampleMirrored | BinarySearchTree.java:537-539 | the mirror of the sample tree, printed as 20 15 14 10 7 6 5 4 |
| Demo.SampleRotated | BinarySearchTree.java:551-563 | rotating left at 10 lifts 15 with children 10 and 20; rotating right at 15 restores the tree |
| Demo.BuildSample | BinarySearchTree.java:479-493 | the object built by the driver's inserts holds the sample tree |
| Demo.DriverCount | BinarySearchTree.java:496-503 | the driver sees 8 nodes and a tree that is not full |
| Demo.DriverCompare | BinarySearchTree.java:505-529 | the driver sees the same structure, then inequality after the edit |
| Demo.DriverCopy | BinarySearchTree.java:532-556 | the copy is equal, the mirror is a mirror, the rotated copy has root 15 and the original is unchanged |

## Left out

- Node identity: the source relinks nodes in place (`t.left = insert(...)`, the rotations, remove's element overwrite). The model computes new tree values. Aliasing between trees and the order of pointer updates are not modelled, since no operation of the source shares nodes between two trees.
- Maintenance.Remove: the element overwrite in the two-child case (`t.element = ...`) is modelled as building a node with the new element, so observers holding that node are not modelled.
- Structure.Equals, Structure.IsMirror, Structure.EqualsIff, Structure.IsMirrorIff: the source compares the boxed elements with `==`, that is, by object identity; the model compares by value. The two agree whenever the compared elements are the same objects, as between a tree and its copy or its mirror (copy and mirror reuse each node's element, lines 315 and 328), and for separately boxed values in the Integer cache range -128 to 127. They differ for equal values boxed separately outside that range: two trees each built by `insert(1000)` are not equal in the source but are equal in the model.
- Elements are mathematical integers compared by `<`. The generic `Comparable` element type and `compareTo` are not modelled.
- Structure.NodeCountFrom, BinarySearchTrees.BinarySearchTree.NodeCount: the 32-bit `int` arithmetic is not modelled. The count wraps beyond 2^31 - 1 nodes: on a tree of 2^31 nodes the helper returns 2^31 - 1 and the public `1 + nodeCount(root)` (line 229) wraps to -2^31, while the model returns 2^31. Height (lines 442-448) would wrap only beyond 2^31 levels, which needs at least as many nodes.
- Console output is not modelled. printTree and printLevels are modelled as the sequences they print, and the "Empty tree" message of printTree is not modelled. The model does not include `main`'s printed messages; `demo.dfy` states the facts behind them instead.
- UnderflowException is not modelled as a class. The failure it signals is the `Underflow` result.
- Null dereferences: rotateLeft and rotateRight fail when the keyed node lacks the child to lift, and printLevels fails on an empty tree. These are preconditions (`Rotations.CanRotateLeft`, `Rotations.CanRotateRight`, `root != Nil`) rather than modelled failures.
- printLevels' nested loop is modelled as an outer loop, `Traversal.LevelsOf`, that calls a method for the inner loop, `Traversal.VisitLevel`. The queue is a sequence.
- getRoot (line 271) is the field access `root`.
- The one-argument BinaryNode constructor (line 454) is never used, and neither is the `org.w3c.dom.Node` import.
- The commented-out stress test at the end of `main` is not modelled.
