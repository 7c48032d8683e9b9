// The node structure of the binary search tree and the views of it in which
// the rest of the model states its contracts: the element set, the in-order
// sequence, the node count and the search-tree ordering.

module Trees {

  /** A subtree. `Nil` is an absent child (a null link); `Node` is a
      BinaryNode with its left child, its element and its right child. */
  datatype Tree = Nil | Node(left: Tree, elem: int, right: Tree)

  /** The set of elements stored in `t`. */
  function Elems(t: Tree): set<int>
  {
    match t
    case Nil => {}
    case Node(l, x, r) => Elems(l) + {x} + Elems(r)
  }

  /** The elements of `t` in the order an in-order walk visits them. */
  function InOrder(t: Tree): (s: seq<int>)
    ensures s == [] <==> t == Nil
  {
    match t
    case Nil => []
    case Node(l, x, r) => InOrder(l) + [x] + InOrder(r)
  }

  /** The number of nodes of `t`. */
  function Size(t: Tree): nat
  {
    match t
    case Nil => 0
    case Node(l, _, r) => Size(l) + 1 + Size(r)
  }

  /** The ordering invariant: every element of a node's left subtree is
      smaller than the node's element, every element of its right subtree
      larger, at every node. */
  predicate BST(t: Tree)
  {
    match t
    case Nil => true
    case Node(l, x, r) =>
      BST(l) && BST(r) &&
      (forall y :: y in Elems(l) ==> y < x) &&
      (forall y :: y in Elems(r) ==> x < y)
  }

  /** `s` is strictly ascending. */
  predicate Increasing(s: seq<int>)
  {
    forall i, j :: 0 <= i < j < |s| ==> s[i] < s[j]
  }

  /** The in-order sequence holds exactly the tree's elements, one entry per node. */
  lemma {:induction false} InOrderElems(t: Tree)
    ensures forall y :: y in InOrder(t) <==> y in Elems(t)
    ensures |InOrder(t)| == Size(t)
  {
    match t
    case Nil =>
    case Node(l, _, r) =>
      InOrderElems(l);
      InOrderElems(r);
  }

  /** A sequence `a + [x] + b` ascends exactly when both sides ascend and
      `x` lies strictly between them. */
  lemma IncreasingAround(a: seq<int>, x: int, b: seq<int>)
    ensures Increasing(a + [x] + b) <==>
              Increasing(a) && Increasing(b) &&
              (forall y :: y in a ==> y < x) && (forall y :: y in b ==> x < y)
  {
    var s := a + [x] + b;
    var n := |a|;
    assert forall i :: 0 <= i < n ==> s[i] == a[i];
    assert s[n] == x;
    assert forall j :: 0 <= j < |b| ==> s[n + 1 + j] == b[j];
    if Increasing(s) {
      forall i, j | 0 <= i < j < |b| ensures b[i] < b[j] {
        assert s[n + 1 + i] < s[n + 1 + j];
      }
      forall y | y in a ensures y < x {
        var i :| 0 <= i < n && a[i] == y;
        assert s[i] < s[n];
      }
      forall y | y in b ensures x < y {
        var j :| 0 <= j < |b| && b[j] == y;
        assert s[n] < s[n + 1 + j];
      }
    }
    if Increasing(a) && Increasing(b) && (forall y :: y in a ==> y < x) && (forall y :: y in b ==> x < y) {
      forall i, j | 0 <= i < j < |s| ensures s[i] < s[j] {
        if j < n {
          assert s[i] == a[i] && s[j] == a[j];
        } else if j == n {
          assert s[i] == a[i] && a[i] in a;
        } else if i < n {
          assert s[i] == a[i] && a[i] in a;
          assert s[j] == b[j - n - 1] && b[j - n - 1] in b;
        } else if i == n {
          assert s[j] == b[j - n - 1] && b[j - n - 1] in b;
        } else {
          assert s[i] == b[i - n - 1] && s[j] == b[j - n - 1];
        }
      }
    }
  }

  /** A tree satisfies the ordering invariant if and only if its in-order
      walk (what printTree prints) is strictly ascending. */
  lemma {:induction false} BSTIffInOrderIncreasing(t: Tree)
    ensures BST(t) <==> Increasing(InOrder(t))
  {
    match t
    case Nil =>
    case Node(l, x, r) =>
      BSTIffInOrderIncreasing(l);
      BSTIffInOrderIncreasing(r);
      InOrderElems(l);
      InOrderElems(r);
      IncreasingAround(InOrder(l), x, InOrder(r));
  }

  /** A search tree holds no element twice: it has as many nodes as distinct elements. */
  lemma {:induction false} BSTSizeIsCard(t: Tree)
    requires BST(t)
    ensures |Elems(t)| == Size(t)
  {
    match t
    case Nil =>
    case Node(l, x, r) =>
      BSTSizeIsCard(l);
      BSTSizeIsCard(r);
      assert x !in Elems(l) && x !in Elems(r);
      assert Elems(l) * Elems(r) == {} by {
        forall y | y in Elems(l) ensures y !in Elems(r) {
          assert y < x;
        }
      }
      assert |Elems(l) + Elems(r)| == |Elems(l)| + |Elems(r)|;
      assert Elems(t) == (Elems(l) + Elems(r)) + {x};
  }
}
