// The public face of the tree: an object holding the root link, whose
// operations either store the new root a helper returns or answer a query
// about the current root. Each operation is stated both as the helper it
// delegates to and as what that means for the stored elements.

module BinarySearchTrees {
  import opened Trees
  import Maintenance
  import Structure
  import Rotations
  import Traversal

  class BinarySearchTree {
    /** The tree root; Nil for an empty tree. */
    var root: Tree

    /** A new tree is empty. */
    constructor()
      ensures root == Nil
    {
      root := Nil;
    }

    /** Insert `x`; duplicates are ignored. */
    method Insert(x: int)
      modifies this
      ensures root == Maintenance.Insert(x, old(root))
      ensures Elems(root) == old(Elems(root)) + {x}
      ensures BST(old(root)) ==> BST(root)
      ensures Maintenance.Contains(x, old(root)) <==> root == old(root)
      ensures Maintenance.Contains(x, root)
    {
      Maintenance.InsertUnchangedIffContains(x, root);
      Maintenance.ContainsAfterInsert(x, root);
      root := Maintenance.Insert(x, root);
    }

    /** Remove `x`; nothing is done if it is not found. */
    method Remove(x: int)
      modifies this
      ensures root == Maintenance.Remove(x, old(root))
      ensures Elems(root) <= old(Elems(root))
      ensures !Maintenance.Contains(x, old(root)) ==> root == old(root)
      ensures BST(old(root)) ==> BST(root) && Elems(root) == old(Elems(root)) - {x}
    {
      if !Maintenance.Contains(x, root) {
        Maintenance.RemoveAbsentIsNoOp(x, root);
      }
      root := Maintenance.Remove(x, root);
    }

    /** The smallest element, or Underflow on an empty tree. The element is
        the first one printTree prints, and on a search tree the least. */
    function FindMin(): (r: Maintenance.Result<int>)
      reads this
      ensures r.Underflow? <==> root == Nil
      ensures r.Ok? ==> r.value in Elems(root) && r.value == InOrder(root)[0]
      ensures r.Ok? && BST(root) ==> forall y :: y in Elems(root) ==> r.value <= y
    {
      if IsEmpty() then Maintenance.Underflow
      else Maintenance.Ok(Maintenance.FindMinNode(root).elem)
    }

    /** The largest element, or Underflow on an empty tree. The element is
        the last one printTree prints, and on a search tree the greatest. */
    method FindMax() returns (r: Maintenance.Result<int>)
      ensures r.Underflow? <==> root == Nil
      ensures r.Ok? ==> r.value in Elems(root) && r.value == InOrder(root)[|InOrder(root)| - 1]
      ensures r.Ok? && BST(root) ==> forall y :: y in Elems(root) ==> y <= r.value
    {
      if IsEmpty() {
        return Maintenance.Underflow;
      }
      var m := Maintenance.FindMaxNode(root);
      r := Maintenance.Ok(m.elem);
    }

    /** Whether the ordered descent finds `x`; on a search tree, whether `x`
        is stored. */
    function Contains(x: int): (b: bool)
      reads this
      ensures b ==> x in Elems(root)
      ensures BST(root) ==> (b <==> x in Elems(root))
    {
      Maintenance.Contains(x, root)
    }

    /** Make the tree logically empty. */
    method MakeEmpty()
      modifies this
      ensures root == Nil && Elems(root) == {}
    {
      root := Nil;
    }

    /** Whether the tree holds no element. */
    function IsEmpty(): (b: bool)
      reads this
      ensures b <==> Elems(root) == {}
      ensures b <==> Size(root) == 0
    {
      root == Nil
    }

    /** What printTree prints, one element per line: the in-order walk, which
        holds every element once per node and, on a search tree, ascends.
        An empty tree prints a message instead, which is not modelled. */
    function PrintTree(): (s: seq<int>)
      reads this
      ensures forall y :: y in s <==> y in Elems(root)
      ensures |s| == Size(root)
      ensures BST(root) <==> Increasing(s)
    {
      InOrderElems(root);
      BSTIffInOrderIncreasing(root);
      InOrder(root)
    }

    /** The number of nodes: one more than the helper's count. */
    function NodeCount(): (n: int)
      reads this
      ensures n == Size(root)
      ensures BST(root) ==> n == |Elems(root)|
    {
      if BST(root) then BSTSizeIsCard(root); 1 + Structure.NodeCountFrom(root)
      else 1 + Structure.NodeCountFrom(root)
    }

    /** Whether no node has exactly one child. */
    function IsFull(): (b: bool)
      reads this
      ensures b <==> Structure.NoNodeHasOneChild(root)
      ensures root.Node? ==> (b <==> Size(root) == 2 * Structure.Leaves(root) - 1)
    {
      Structure.IsFullIff(root);
      if root.Node? then Structure.IsFullCount(root); Structure.IsFull(root)
      else Structure.IsFull(root)
    }

    /** Whether this tree and `tree` have nodes at the same positions. */
    function CompareStructure(tree: BinarySearchTree): (b: bool)
      reads this, tree
      ensures b <==> Structure.Shape(root) == Structure.Shape(tree.root)
    {
      Structure.CompareStructureIff(root, tree.root);
      Structure.CompareStructure(root, tree.root)
    }

    /** Whether this tree and `tree` hold equal elements at the same positions. */
    function Equals(tree: BinarySearchTree): (b: bool)
      reads this, tree
      ensures b <==> root == tree.root
      ensures b ==> CompareStructure(tree)
    {
      Structure.EqualsIff(root, tree.root);
      Structure.Equals(root, tree.root)
    }

    /** A new tree with a node-by-node copy of this one. */
    method Copy() returns (c: BinarySearchTree)
      ensures fresh(c)
      ensures c.root == root
      ensures Equals(c) && CompareStructure(c)
    {
      c := new BinarySearchTree();
      c.root := Structure.Copy(root);
    }

    /** A new tree holding the mirror image of this one: the same elements,
        printed in the reverse order. */
    method Mirror() returns (m: BinarySearchTree)
      ensures fresh(m)
      ensures m.root == Structure.Mirror(root)
      ensures Elems(m.root) == Elems(root) && Size(m.root) == Size(root)
      ensures InOrder(m.root) == Structure.Reverse(InOrder(root))
      ensures IsMirror(m)
    {
      Structure.MirrorInOrder(root);
      Structure.IsMirrorOfMirror(root);
      m := new BinarySearchTree();
      m.root := Structure.Mirror(root);
    }

    /** Whether `mirror` is the mirror image of this tree. */
    function IsMirror(mirror: BinarySearchTree): (b: bool)
      reads this, mirror
      ensures b <==> mirror.root == Structure.Mirror(root)
    {
      Structure.IsMirrorIff(root, mirror.root);
      Structure.IsMirror(root, mirror.root)
    }

    /** Rotate left at the node holding `key`; the printed order and the
        ordering invariant are kept. */
    method RotateLeft(key: int)
      requires Rotations.CanRotateLeft(key, root)
      modifies this
      ensures root == Rotations.RotateLeft(key, old(root))
      ensures InOrder(root) == InOrder(old(root))
      ensures BST(root) <==> BST(old(root))
      ensures !Maintenance.Contains(key, old(root)) ==> root == old(root)
    {
      Rotations.RotationsPreserveBST(key, root);
      if !Maintenance.Contains(key, root) {
        Rotations.RotateAbsentIsNoOp(key, root);
      }
      root := Rotations.RotateLeft(key, root);
    }

    /** Rotate right at the node holding `key`; the printed order and the
        ordering invariant are kept. */
    method RotateRight(key: int)
      requires Rotations.CanRotateRight(key, root)
      modifies this
      ensures root == Rotations.RotateRight(key, old(root))
      ensures InOrder(root) == InOrder(old(root))
      ensures BST(root) <==> BST(old(root))
      ensures !Maintenance.Contains(key, old(root)) ==> root == old(root)
    {
      Rotations.RotationsPreserveBST(key, root);
      if !Maintenance.Contains(key, root) {
        Rotations.RotateAbsentIsNoOp(key, root);
      }
      root := Rotations.RotateRight(key, root);
    }

    /** What printLevels prints, one line per level. The source fails on an
        empty tree. */
    method PrintLevels() returns (levels: seq<seq<int>>)
      requires root != Nil
      ensures levels == Traversal.LevelOrder(root)
      ensures |levels| == Structure.Height(root) + 1 && levels[0] == [root.elem]
    {
      Traversal.LevelOrderShape(root);
      levels := Traversal.LevelsOf(root);
    }
  }
}
