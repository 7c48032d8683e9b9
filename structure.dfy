// The structural queries of the tree (node count, fullness, height, shape and
// value comparison, mirror test) and the two constructors of new trees (copy
// and mirror). None of them changes the tree it is given.

module Structure {
  import opened Trees

  /** The private nodeCount helper, with its base cases -1 for an empty link
      and 0 for a leaf; it is always one less than the number of nodes, which
      the public nodeCount corrects by adding one. */
  function NodeCountFrom(t: Tree): (n: int)
    ensures n == Size(t) - 1
  {
    match t
    case Nil => -1
    case Node(l, _, r) =>
      if l == Nil && r == Nil then 0
      else (1 + NodeCountFrom(l)) + (1 + NodeCountFrom(r))
  }

  /** The private isFull, with the source's early returns. */
  function IsFull(t: Tree): (b: bool)
    ensures b ==> OneChildNodes(t) == 0
  {
    match t
    case Nil => true
    case Node(l, _, r) =>
      var twoChilds := l != Nil && r != Nil;
      var noChilds := l == Nil && r == Nil;
      if !(twoChilds || noChilds) then false
      else if !IsFull(l) then false
      else if !IsFull(r) then false
      else true
  }

  /** Every subtree of `t`, `t` itself included. */
  function Subtrees(t: Tree): set<Tree>
  {
    match t
    case Nil => {t}
    case Node(l, _, r) => {t} + Subtrees(l) + Subtrees(r)
  }

  /** Reference definition of fullness: no node anywhere has exactly one child. */
  ghost predicate NoNodeHasOneChild(t: Tree)
  {
    forall s :: s in Subtrees(t) && s.Node? ==> (s.left == Nil <==> s.right == Nil)
  }

  /** isFull holds exactly when no node of the tree has only one child. */
  lemma {:induction false} IsFullIff(t: Tree)
    ensures IsFull(t) <==> NoNodeHasOneChild(t)
  {
    match t
    case Nil =>
    case Node(l, _, r) =>
      IsFullIff(l);
      IsFullIff(r);
      assert t in Subtrees(t);
      assert Subtrees(t) == {t} + Subtrees(l) + Subtrees(r);
  }

  /** The number of leaves of `t`. */
  function Leaves(t: Tree): nat
  {
    match t
    case Nil => 0
    case Node(l, _, r) => if l == Nil && r == Nil then 1 else Leaves(l) + Leaves(r)
  }

  /** The number of nodes of `t` with exactly one child. */
  function OneChildNodes(t: Tree): nat
  {
    match t
    case Nil => 0
    case Node(l, _, r) =>
      (if (l == Nil) != (r == Nil) then 1 else 0) + OneChildNodes(l) + OneChildNodes(r)
  }

  /** Counting form of fullness: a non-empty tree is full exactly when it has
      one node fewer than twice its leaves. */
  lemma {:induction false} IsFullCount(t: Tree)
    requires t.Node?
    ensures Size(t) + 1 == 2 * Leaves(t) + OneChildNodes(t)
    ensures IsFull(t) <==> Size(t) == 2 * Leaves(t) - 1
  {
    OneChildCount(t);
    match t
    case Node(l, _, r) =>
      if l != Nil { IsFullCount(l); }
      if r != Nil { IsFullCount(r); }
  }

  /** isFull holds exactly when no node has one child, counted. */
  lemma {:induction false} OneChildCount(t: Tree)
    ensures IsFull(t) <==> OneChildNodes(t) == 0
  {
    match t
    case Nil =>
    case Node(l, _, r) =>
      OneChildCount(l);
      OneChildCount(r);
  }

  function Max(a: int, b: int): int
  {
    if a < b then b else a
  }

  /** The private height: -1 for an empty tree, otherwise one more than the
      taller child. Each extra level holds at least one node. */
  function Height(t: Tree): (h: int)
    ensures -1 <= h < Size(t)
  {
    match t
    case Nil => -1
    case Node(l, _, r) => 1 + Max(Height(l), Height(r))
  }

  function Pow2(n: nat): nat
  {
    if n == 0 then 1 else 2 * Pow2(n - 1)
  }

  lemma {:induction false} Pow2Monotone(m: nat, n: nat)
    requires m <= n
    ensures Pow2(m) <= Pow2(n)
  {
    if m < n {
      Pow2Monotone(m, n - 1);
    }
  }

  lemma Pow2Sum(a: nat, b: nat, h: nat)
    requires a <= h && b <= h
    ensures Pow2(a) + Pow2(b) <= Pow2(h + 1)
  {
    Pow2Monotone(a, h);
    Pow2Monotone(b, h);
  }

  /** A tree of height `h` has at most 2^(h+1) - 1 nodes. */
  lemma {:induction false} SizeBoundedByHeight(t: Tree)
    ensures Size(t) <= Pow2(Height(t) + 1) - 1
  {
    match t
    case Nil =>
    case Node(l, _, r) =>
      SizeBoundedByHeight(l);
      SizeBoundedByHeight(r);
      Pow2Sum(Height(l) + 1, Height(r) + 1, Height(t));
  }

  /** The private compareStructure: both links absent or both present, at
      every position; elements are not looked at. */
  function CompareStructure(a: Tree, b: Tree): (r: bool)
    ensures r ==> Size(a) == Size(b)
  {
    if a == Nil && b == Nil then true
    else if a == Nil || b == Nil then false
    else CompareStructure(a.left, b.left) && CompareStructure(a.right, b.right)
  }

  /** The shape of a tree: the same nodes with every element replaced by 0. */
  function Shape(t: Tree): Tree
  {
    match t
    case Nil => Nil
    case Node(l, _, r) => Node(Shape(l), 0, Shape(r))
  }

  /** compareStructure holds exactly when the two trees have the same shape. */
  lemma {:induction false} CompareStructureIff(a: Tree, b: Tree)
    ensures CompareStructure(a, b) <==> Shape(a) == Shape(b)
  {
    if a != Nil && b != Nil {
      CompareStructureIff(a.left, b.left);
      CompareStructureIff(a.right, b.right);
    }
  }

  /** The private equals: the same shape and equal elements at every position.
      The source compares the elements with `==`; here that is value equality. */
  function Equals(a: Tree, b: Tree): (r: bool)
    ensures r ==> a == b
  {
    if a == Nil && b == Nil then true
    else if a != Nil && b != Nil && a.elem == b.elem then
      Equals(a.left, b.left) && Equals(a.right, b.right)
    else false
  }

  /** equals holds exactly when the two trees are the same tree value. */
  lemma {:induction false} EqualsIff(a: Tree, b: Tree)
    ensures Equals(a, b) <==> a == b
  {
    if a != Nil && b != Nil && a.elem == b.elem {
      EqualsIff(a.left, b.left);
      EqualsIff(a.right, b.right);
    }
  }

  /** Trees that are equal have the same structure. */
  lemma EqualsImpliesSameStructure(a: Tree, b: Tree)
    requires Equals(a, b)
    ensures CompareStructure(a, b)
  {
    EqualsIff(a, b);
    CompareStructureIff(a, b);
  }

  /** The node-level copy: a new node for every node, with the same element
      and copies of the children. As a value the copy is the tree itself. */
  function Copy(t: Tree): (c: Tree)
    ensures c == t
  {
    match t
    case Nil => Nil
    case Node(l, x, r) => Node(Copy(l), x, Copy(r))
  }

  /** A copy is equal to, and has the structure of, the tree it was taken from. */
  lemma {:induction false} CopyIsEqual(t: Tree)
    ensures Equals(t, Copy(t))
    ensures CompareStructure(t, Copy(t))
  {
    EqualsIff(t, Copy(t));
    EqualsImpliesSameStructure(t, Copy(t));
  }

  /** The node-level mirror: a new node for every node, with the mirrored
      right child on the left and the mirrored left child on the right. */
  function Mirror(t: Tree): (m: Tree)
    ensures Elems(m) == Elems(t) && Size(m) == Size(t)
  {
    match t
    case Nil => Nil
    case Node(l, x, r) => Node(Mirror(r), x, Mirror(l))
  }

  /** The private isMirror: `b` is the left-right reflection of `a`, with equal
      elements (compared by value) at reflected positions. */
  function IsMirror(a: Tree, b: Tree): (r: bool)
    ensures r ==> Elems(a) == Elems(b) && Size(a) == Size(b)
  {
    if a == Nil && b == Nil then true
    else if a != Nil && b != Nil && a.elem == b.elem then
      IsMirror(a.left, b.right) && IsMirror(a.right, b.left)
    else false
  }

  /** Mirroring twice gives back the original tree. */
  lemma {:induction false} MirrorInvolution(t: Tree)
    ensures Mirror(Mirror(t)) == t
  {
    match t
    case Nil =>
    case Node(l, _, r) =>
      MirrorInvolution(l);
      MirrorInvolution(r);
  }

  /** isMirror holds exactly when the second tree is the mirror of the first;
      in particular every tree is a mirror of its mirror. */
  lemma {:induction false} IsMirrorIff(a: Tree, b: Tree)
    ensures IsMirror(a, b) <==> b == Mirror(a)
  {
    if a != Nil && b != Nil && a.elem == b.elem {
      IsMirrorIff(a.left, b.right);
      IsMirrorIff(a.right, b.left);
    }
  }

  /** A tree and its mirror, as the demonstration checks. */
  lemma IsMirrorOfMirror(t: Tree)
    ensures IsMirror(t, Mirror(t))
  {
    IsMirrorIff(t, Mirror(t));
  }

  /** The reverse of a sequence. */
  function Reverse(s: seq<int>): seq<int>
  {
    if s == [] then [] else Reverse(s[1..]) + [s[0]]
  }

  lemma {:induction false} ReverseConcat(a: seq<int>, b: seq<int>)
    ensures Reverse(a + b) == Reverse(b) + Reverse(a)
  {
    if a == [] {
      assert a + b == b;
    } else {
      assert (a + b)[1..] == a[1..] + b;
      ReverseConcat(a[1..], b);
    }
  }

  lemma {:induction false} ReverseIndex(s: seq<int>, i: nat)
    requires i < |s|
    ensures |Reverse(s)| == |s| && Reverse(s)[i] == s[|s| - 1 - i]
  {
    if i < |s| - 1 {
      ReverseIndex(s[1..], i);
    } else {
      ReverseLength(s[1..]);
    }
  }

  lemma {:induction false} ReverseLength(s: seq<int>)
    ensures |Reverse(s)| == |s|
  {
    if s != [] {
      ReverseLength(s[1..]);
    }
  }

  /** The in-order walk of a mirror is the in-order walk of the tree, reversed. */
  lemma {:induction false} MirrorInOrder(t: Tree)
    ensures InOrder(Mirror(t)) == Reverse(InOrder(t))
    ensures Elems(Mirror(t)) == Elems(t) && Size(Mirror(t)) == Size(t)
  {
    match t
    case Nil =>
    case Node(l, x, r) =>
      MirrorInOrder(l);
      MirrorInOrder(r);
      ReverseConcat(InOrder(l) + [x], InOrder(r));
      ReverseConcat(InOrder(l), [x]);
      assert Reverse([x]) == [x] by {
        assert [x][1..] == [];
      }
  }

  /** The mirror of a search tree with two or more elements is not a search
      tree: its in-order walk descends. */
  lemma MirrorOfBSTIsNotBST(t: Tree)
    requires BST(t) && Size(t) >= 2
    ensures !BST(Mirror(t))
  {
    var s := InOrder(t);
    InOrderElems(t);
    BSTIffInOrderIncreasing(t);
    MirrorInOrder(t);
    BSTIffInOrderIncreasing(Mirror(t));
    var n := |s|;
    ReverseIndex(s, n - 2);
    ReverseIndex(s, n - 1);
    assert s[0] < s[1];
    assert Reverse(s)[n - 2] > Reverse(s)[n - 1];
  }
}
