// The scenario the source's test driver walks through, stated as facts about
// the concrete trees it builds: insert 10, 5, 15, 4, 6, 20, 7, 14.

module Demo {
  import opened Trees
  import Maintenance
  import Structure
  import Rotations
  import Traversal
  import BinarySearchTrees

  /** Insert the elements of `xs` one after another, starting from `t`. */
  function InsertAll(xs: seq<int>, t: Tree): (r: Tree)
    ensures Elems(r) == Elems(t) + set x | x in xs
    ensures BST(t) ==> BST(r)
  {
    if xs == [] then t else InsertAll(xs[1..], Maintenance.Insert(xs[0], t))
  }

  /** The driver's tree. */
  function Sample(): Tree
  {
    Node(Node(Node(Nil, 4, Nil), 5, Node(Nil, 6, Node(Nil, 7, Nil))),
         10,
         Node(Node(Nil, 14, Nil), 15, Node(Nil, 20, Nil)))
  }

  /** The intermediate trees of the driver's inserts. */
  function Stage(n: nat): Tree
  {
    if n == 0 then Nil
    else if n == 1 then Node(Nil, 10, Nil)
    else if n == 2 then Node(Node(Nil, 5, Nil), 10, Nil)
    else if n == 3 then Node(Node(Nil, 5, Nil), 10, Node(Nil, 15, Nil))
    else if n == 4 then Node(Node(Node(Nil, 4, Nil), 5, Nil), 10, Node(Nil, 15, Nil))
    else if n == 5 then Node(Node(Node(Nil, 4, Nil), 5, Node(Nil, 6, Nil)), 10, Node(Nil, 15, Nil))
    else if n == 6 then Node(Node(Node(Nil, 4, Nil), 5, Node(Nil, 6, Nil)), 10, Node(Nil, 15, Node(Nil, 20, Nil)))
    else if n == 7 then Node(Node(Node(Nil, 4, Nil), 5, Node(Nil, 6, Node(Nil, 7, Nil))), 10, Node(Nil, 15, Node(Nil, 20, Nil)))
    else Sample()
  }

  /** Each insert of the driver turns one stage into the next. */
  lemma StagesInserted(n: nat)
    requires n < 8
    ensures Maintenance.Insert([10, 5, 15, 4, 6, 20, 7, 14][n], Stage(n)) == Stage(n + 1)
  {
  }

  /** The eight inserts build the sample tree. */
  lemma SampleBuilt()
    ensures InsertAll([10, 5, 15, 4, 6, 20, 7, 14], Nil) == Sample()
  {
    var xs := [10, 5, 15, 4, 6, 20, 7, 14];
    assert InsertAll(xs[8..], Stage(8)) == Sample();
    StagesInserted(7);
    assert InsertAll(xs[7..], Stage(7)) == Sample();
    StagesInserted(6);
    assert InsertAll(xs[6..], Stage(6)) == Sample();
    StagesInserted(5);
    assert InsertAll(xs[5..], Stage(5)) == Sample();
    StagesInserted(4);
    assert InsertAll(xs[4..], Stage(4)) == Sample();
    StagesInserted(3);
    assert InsertAll(xs[3..], Stage(3)) == Sample();
    StagesInserted(2);
    assert InsertAll(xs[2..], Stage(2)) == Sample();
    StagesInserted(1);
    assert InsertAll(xs[1..], Stage(1)) == Sample();
    StagesInserted(0);
    assert xs[0..] == xs;
  }

  /** The sample tree is a search tree. */
  lemma SampleIsBST()
    ensures BST(Sample())
  {
    SampleBuilt();
  }

  /** The sample tree has eight nodes, height 3, and is not full: node 6 has
      only its right child 7. */
  lemma SampleCounted()
    ensures 1 + Structure.NodeCountFrom(Sample()) == 8
    ensures !Structure.IsFull(Sample())
    ensures Structure.Height(Sample()) == 3
  {
  }

  /** printTree prints the sample tree in ascending order. */
  lemma SamplePrinted()
    ensures InOrder(Sample()) == [4, 5, 6, 7, 10, 14, 15, 20]
  {
  }

  /** The levels of the sample tree, from the root down. */
  lemma SampleLevels()
    ensures Traversal.Level(Sample(), 0) == [10]
    ensures Traversal.Level(Sample(), 1) == [5, 15]
    ensures Traversal.Level(Sample(), 2) == [4, 6, 14, 20]
    ensures Traversal.Level(Sample(), 3) == [7]
  {
  }

  /** printLevels prints the sample tree level by level. */
  lemma SampleLevelOrder()
    ensures Traversal.LevelOrder(Sample()) == [[10], [5, 15], [4, 6, 14, 20], [7]]
  {
    SampleCounted();
    SampleLevels();
    var t := Sample();
    assert Traversal.LevelsUpTo(t, 1) == [[10]];
    assert Traversal.LevelsUpTo(t, 2) == [[10], [5, 15]];
    assert Traversal.LevelsUpTo(t, 3) == [[10], [5, 15], [4, 6, 14, 20]];
  }

  /** The driver's second tree after it loses 14 and gains 13. */
  function Edited(): Tree
  {
    Node(Node(Node(Nil, 4, Nil), 5, Node(Nil, 6, Node(Nil, 7, Nil))),
         10,
         Node(Node(Nil, 13, Nil), 15, Node(Nil, 20, Nil)))
  }

  lemma SampleEditedBuilt()
    ensures Maintenance.Insert(13, Maintenance.Remove(14, Sample())) == Edited()
  {
    var removed := Node(Node(Node(Nil, 4, Nil), 5, Node(Nil, 6, Node(Nil, 7, Nil))),
                        10,
                        Node(Nil, 15, Node(Nil, 20, Nil)));
    assert Maintenance.Remove(14, Sample()) == removed;
  }

  /** Two trees built by the same inserts have the same structure; after the
      second loses 14 and gains 13, it keeps the structure but is no longer equal. */
  lemma SampleEdited()
    ensures Structure.CompareStructure(Sample(), Sample())
    ensures Structure.CompareStructure(Sample(), Edited())
    ensures !Structure.Equals(Sample(), Edited())
    ensures InOrder(Edited()) == [4, 5, 6, 7, 10, 13, 15, 20]
  {
  }

  /** The copy equals the original, the mirror is a mirror and prints the
      elements in descending order. */
  lemma SampleCopiedAndMirrored()
    ensures Structure.Equals(Sample(), Structure.Copy(Sample()))
    ensures Structure.IsMirror(Sample(), Structure.Mirror(Sample()))
    ensures InOrder(Structure.Mirror(Sample())) == [20, 15, 14, 10, 7, 6, 5, 4]
  {
    Structure.CopyIsEqual(Sample());
    Structure.IsMirrorOfMirror(Sample());
    SampleMirrored();
  }

  /** The driver's mirrored tree. */
  function Mirrored(): Tree
  {
    Node(Node(Node(Nil, 20, Nil), 15, Node(Nil, 14, Nil)),
         10,
         Node(Node(Node(Nil, 7, Nil), 6, Nil), 5, Node(Nil, 4, Nil)))
  }

  /** The mirror of the sample tree, and its descending in-order walk. */
  lemma SampleMirrored()
    ensures Structure.Mirror(Sample()) == Mirrored()
    ensures InOrder(Mirrored()) == [20, 15, 14, 10, 7, 6, 5, 4]
  {
    var s := Sample();
    assert Structure.Mirror(s.left.right) == Node(Node(Nil, 7, Nil), 6, Nil);
    assert Structure.Mirror(s.left) == Mirrored().right;
    assert Structure.Mirror(s.right) == Mirrored().left;
  }

  /** Rotating the copy left at 10 lifts 15 to the root, with 10 and 20 as
      its children; rotating right at 15 then restores the tree. */
  lemma SampleRotated()
    ensures Rotations.CanRotateLeft(10, Sample())
    ensures var u := Rotations.RotateLeft(10, Sample());
              u.elem == 15 && u.left.elem == 10 && u.right.elem == 20 &&
              Rotations.CanRotateRight(15, u) &&
              Rotations.RotateRight(15, u) == Sample()
  {
  }

  /** The driver's tree, built through the object interface. */
  method BuildSample() returns (t: BinarySearchTrees.BinarySearchTree)
    ensures fresh(t) && t.root == Sample()
  {
    t := new BinarySearchTrees.BinarySearchTree();
    var xs := [10, 5, 15, 4, 6, 20, 7, 14];
    var n := 0;
    while n < |xs|
      invariant 0 <= n <= 8
      invariant t.root == Stage(n)
      modifies t
    {
      StagesInserted(n);
      t.Insert(xs[n]);
      n := n + 1;
    }
  }

  /** The driver's first checks: eight nodes, and not full. */
  method DriverCount() returns (count: int, full: bool)
    ensures count == 8 && !full
  {
    var t := BuildSample();
    SampleCounted();
    count := t.NodeCount();
    full := t.IsFull();
  }

  /** The driver's comparisons of two identically built trees: the same
      structure, and no longer equal once the second loses 14 and gains 13. */
  method DriverCompare() returns (same: bool, equalAfterEdit: bool)
    ensures same && !equalAfterEdit
  {
    var t := BuildSample();
    var t2 := BuildSample();
    same := t.CompareStructure(t2);
    SampleEditedBuilt();
    SampleEdited();
    t2.Remove(14);
    t2.Insert(13);
    equalAfterEdit := t.Equals(t2);
  }

  /** The driver's last checks: equality with a copy, the mirror test, and
      that rotating the copy lifts 15 to its root and leaves the original
      unchanged. */
  method DriverCopy() returns (equalToCopy: bool, mirrored: bool, rootAfterRotate: int, original: Tree)
    ensures equalToCopy && mirrored && rootAfterRotate == 15 && original == Sample()
  {
    var t := BuildSample();
    var t3 := t.Copy();
    var t4 := t.Mirror();
    equalToCopy := t.Equals(t3);
    mirrored := t.IsMirror(t4);
    SampleRotated();
    t3.RotateLeft(10);
    rootAfterRotate := t3.root.elem;
    original := t.root;
  }
}
