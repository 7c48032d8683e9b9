// Single rotations at the node holding a given key. The key is located by the
// same ordered descent as contains; an absent key leaves the tree as it is.
// The source dereferences the promoted child without checking it, so the
// rotations here require that child to be present.

module Rotations {
  import opened Trees
  import Maintenance

  /** The subtree at which the ordered descent for `k` stops: the node holding
      `k`, or Nil when the descent reaches an empty link. */
  function Find(k: int, t: Tree): (s: Tree)
    ensures s.Node? <==> Maintenance.Contains(k, t)
    ensures s.Node? ==> s.elem == k
    ensures Elems(s) <= Elems(t)
  {
    match t
    case Nil => Nil
    case Node(l, y, r) =>
      if k < y then Find(k, l)
      else if k > y then Find(k, r)
      else t
  }

  /** rotateLeft does not fail: if the node holding `k` is found, it has a right child. */
  predicate CanRotateLeft(k: int, t: Tree)
  {
    Find(k, t).Node? ==> Find(k, t).right.Node?
  }

  /** rotateRight does not fail: if the node holding `k` is found, it has a left child. */
  predicate CanRotateRight(k: int, t: Tree)
  {
    Find(k, t).Node? ==> Find(k, t).left.Node?
  }

  /** The private rotateLeft: the right child of the node holding `k` takes
      that node's place, the node becomes its left child, and the promoted
      child's former left subtree becomes the node's right subtree. */
  function RotateLeft(k: int, t: Tree): (r: Tree)
    requires CanRotateLeft(k, t)
    ensures InOrder(r) == InOrder(t)
  {
    match t
    case Nil => Nil
    case Node(l, y, rt) =>
      if k < y then Node(RotateLeft(k, l), y, rt)
      else if k > y then Node(l, y, RotateLeft(k, rt))
      else Node(Node(l, y, rt.left), rt.elem, rt.right)
  }

  /** The private rotateRight, the mirror image of rotateLeft. */
  function RotateRight(k: int, t: Tree): (r: Tree)
    requires CanRotateRight(k, t)
    ensures InOrder(r) == InOrder(t)
  {
    match t
    case Nil => Nil
    case Node(lt, y, r) =>
      if k < y then Node(RotateRight(k, lt), y, r)
      else if k > y then Node(lt, y, RotateRight(k, r))
      else Node(lt.left, lt.elem, Node(lt.right, y, r))
  }

  /** Rotations keep the ordering invariant (and never create it). */
  lemma RotationsPreserveBST(k: int, t: Tree)
    ensures CanRotateLeft(k, t) ==> (BST(RotateLeft(k, t)) <==> BST(t))
    ensures CanRotateRight(k, t) ==> (BST(RotateRight(k, t)) <==> BST(t))
  {
    BSTIffInOrderIncreasing(t);
    if CanRotateLeft(k, t) {
      BSTIffInOrderIncreasing(RotateLeft(k, t));
    }
    if CanRotateRight(k, t) {
      BSTIffInOrderIncreasing(RotateRight(k, t));
    }
  }

  /** Rotating at a key the descent does not find changes nothing. */
  lemma {:induction false} RotateAbsentIsNoOp(k: int, t: Tree)
    requires !Maintenance.Contains(k, t)
    ensures CanRotateLeft(k, t) && RotateLeft(k, t) == t
    ensures CanRotateRight(k, t) && RotateRight(k, t) == t
  {
    match t
    case Nil =>
    case Node(l, y, r) =>
      if k < y {
        RotateAbsentIsNoOp(k, l);
      } else if k > y {
        RotateAbsentIsNoOp(k, r);
      }
  }

  /** On a search tree, rotating right at the element that rotateLeft(k)
      promoted restores the tree. */
  lemma {:induction false} RotateRightUndoesRotateLeft(k: int, t: Tree)
    requires BST(t) && Find(k, t).Node? && Find(k, t).right.Node?
    ensures var p := Find(k, t).right.elem;
              CanRotateRight(p, RotateLeft(k, t)) && RotateRight(p, RotateLeft(k, t)) == t
  {
    var p := Find(k, t).right.elem;
    assert p in Elems(Find(k, t));
    match t
    case Node(l, y, r) =>
      if k < y {
        RotateRightUndoesRotateLeft(k, l);
        assert p < y;
      } else if k > y {
        RotateRightUndoesRotateLeft(k, r);
        assert p > y;
      } else {
        assert y < p;
      }
  }

  /** On a search tree, rotating left at the element that rotateRight(k)
      promoted restores the tree. */
  lemma {:induction false} RotateLeftUndoesRotateRight(k: int, t: Tree)
    requires BST(t) && Find(k, t).Node? && Find(k, t).left.Node?
    ensures var p := Find(k, t).left.elem;
              CanRotateLeft(p, RotateRight(k, t)) && RotateLeft(p, RotateRight(k, t)) == t
  {
    var p := Find(k, t).left.elem;
    assert p in Elems(Find(k, t));
    match t
    case Node(l, y, r) =>
      if k < y {
        RotateLeftUndoesRotateRight(k, l);
        assert p < y;
      } else if k > y {
        RotateLeftUndoesRotateRight(k, r);
        assert p > y;
      } else {
        assert p < y;
      }
  }
}
