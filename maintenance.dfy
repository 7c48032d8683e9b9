// The search-tree maintenance helpers: insert, remove, contains and the
// minimum and maximum searches, each over a subtree. As in the source, the
// helpers that change the tree return the (possibly new) root of the subtree
// they were given, and their callers store it back into a child link or into
// the tree's root.

module Maintenance {
  import opened Trees

  /** What findMin and findMax give back: the element, or the underflow
      error they raise on an empty tree. */
  datatype Result<T> = Ok(value: T) | Underflow

  /** The private insert: descend by comparison and hang a new leaf at the
      empty link reached; an element equal to a visited one is ignored. */
  function Insert(x: int, t: Tree): (r: Tree)
    ensures Elems(r) == Elems(t) + {x}
    ensures BST(t) ==> BST(r)
  {
    match t
    case Nil => Node(Nil, x, Nil)
    case Node(lt, y, rt) =>
      if x < y then Node(Insert(x, lt), y, rt)
      else if x > y then Node(lt, y, Insert(x, rt))
      else t
  }

  /** The private contains: descend by comparison, true on a match. */
  function Contains(x: int, t: Tree): (b: bool)
    ensures b ==> x in Elems(t)
    ensures BST(t) ==> (b <==> x in Elems(t))
  {
    match t
    case Nil => false
    case Node(lt, y, rt) =>
      if x < y then Contains(x, lt)
      else if x > y then Contains(x, rt)
      else true
  }

  /** The private findMin: the leftmost node of `t`, Nil for an empty tree. */
  function FindMinNode(t: Tree): (m: Tree)
    ensures m.Node? <==> t.Node?
    ensures m.Node? ==> m.left == Nil && m.elem in Elems(t) && m.elem == InOrder(t)[0]
    ensures m.Node? && BST(t) ==> forall y :: y in Elems(t) ==> m.elem <= y
  {
    match t
    case Nil => Nil
    case Node(lt, _, _) => if lt == Nil then t else FindMinNode(lt)
  }

  /** The private findMax: walk right links until a node without a right
      child; Nil for an empty tree. */
  method FindMaxNode(t: Tree) returns (m: Tree)
    ensures m.Node? <==> t.Node?
    ensures m.Node? ==> m.right == Nil && m.elem in Elems(t) && m.elem == InOrder(t)[|InOrder(t)| - 1]
    ensures m.Node? && BST(t) ==> forall y :: y in Elems(t) ==> y <= m.elem
  {
    m := t;
    if m != Nil {
      while m.right != Nil
        invariant m.Node?
        invariant Elems(m) <= Elems(t)
        invariant InOrder(m)[|InOrder(m)| - 1] == InOrder(t)[|InOrder(t)| - 1]
        invariant BST(t) ==> BST(m) && forall y :: y in Elems(t) ==> y <= m.elem || y in Elems(m.right)
        decreases Size(m)
      {
        m := m.right;
      }
    }
  }

  /** The private remove. A node with two children takes the least element
      of its right subtree, which is then removed from that subtree; a node
      with at most one child is replaced by that child. An absent element
      leaves the tree as it is. */
  function Remove(x: int, t: Tree): (r: Tree)
    ensures Elems(r) <= Elems(t)
    ensures BST(t) ==> BST(r) && Elems(r) == Elems(t) - {x}
    decreases t
  {
    match t
    case Nil => Nil
    case Node(lt, y, rt) =>
      if x < y then Node(Remove(x, lt), y, rt)
      else if x > y then Node(lt, y, Remove(x, rt))
      else if lt != Nil && rt != Nil then
        var m := FindMinNode(rt).elem;
        Node(lt, m, Remove(m, rt))
      else if lt != Nil then lt
      else rt
  }

  /** Insert leaves the tree unchanged exactly when the descent finds `x`
      (duplicates are ignored), and otherwise adds one node. */
  lemma {:induction false} InsertUnchangedIffContains(x: int, t: Tree)
    ensures Insert(x, t) == t <==> Contains(x, t)
    ensures Size(Insert(x, t)) == if Contains(x, t) then Size(t) else Size(t) + 1
  {
    match t
    case Nil =>
    case Node(lt, y, rt) =>
      if x < y {
        InsertUnchangedIffContains(x, lt);
      } else if x > y {
        InsertUnchangedIffContains(x, rt);
      }
  }

  /** After inserting `x`, the descent for `x` finds it. */
  lemma {:induction false} ContainsAfterInsert(x: int, t: Tree)
    ensures Contains(x, Insert(x, t))
  {
    match t
    case Nil =>
    case Node(lt, y, rt) =>
      if x < y {
        ContainsAfterInsert(x, lt);
      } else if x > y {
        ContainsAfterInsert(x, rt);
      }
  }

  /** Inserting the same element a second time changes nothing. */
  lemma InsertIdempotent(x: int, t: Tree)
    ensures Insert(x, Insert(x, t)) == Insert(x, t)
  {
    ContainsAfterInsert(x, t);
    InsertUnchangedIffContains(x, Insert(x, t));
  }

  /** On a search tree, inserting a present element is a no-op and
      inserting an absent one adds exactly one node. */
  lemma InsertIntoBST(x: int, t: Tree)
    requires BST(t)
    ensures x in Elems(t) ==> Insert(x, t) == t
    ensures x !in Elems(t) ==> Size(Insert(x, t)) == Size(t) + 1
  {
    InsertUnchangedIffContains(x, t);
  }

  /** Removing an element the descent does not find is a no-op. */
  lemma {:induction false} RemoveAbsentIsNoOp(x: int, t: Tree)
    requires !Contains(x, t)
    ensures Remove(x, t) == t
  {
    match t
    case Nil =>
    case Node(lt, y, rt) =>
      if x < y {
        RemoveAbsentIsNoOp(x, lt);
      } else if x > y {
        RemoveAbsentIsNoOp(x, rt);
      }
  }

  /** On a search tree, remove is a no-op exactly when the element is absent,
      and otherwise takes away exactly one node. */
  lemma RemoveFromBST(x: int, t: Tree)
    requires BST(t)
    ensures Remove(x, t) == t <==> x !in Elems(t)
    ensures Size(Remove(x, t)) == if x in Elems(t) then Size(t) - 1 else Size(t)
  {
    if x !in Elems(t) {
      RemoveAbsentIsNoOp(x, t);
    } else {
      BSTSizeIsCard(t);
      BSTSizeIsCard(Remove(x, t));
      assert |Elems(t) - {x}| == |Elems(t)| - 1;
    }
  }

  /** The two-child case: the node keeps its left subtree, takes the least
      element of its right subtree, and that element leaves the right subtree. */
  lemma RemoveTwoChildren(t: Tree)
    requires BST(t) && t.Node? && t.left.Node? && t.right.Node?
    ensures var u := Remove(t.elem, t);
              u.Node? && u.left == t.left &&
              u.elem in Elems(t.right) &&
              (forall y :: y in Elems(t.right) ==> u.elem <= y) &&
              Elems(u.right) == Elems(t.right) - {u.elem}
  {
  }
}
