// The breadth-first traversal behind printLevels: the elements of the tree
// grouped by depth, each group from left to right. The in-order traversal
// behind printTree is Trees.InOrder.

module Traversal {
  import opened Trees
  import Structure

  /** The elements at depth `d` of `t`, from left to right. */
  function Level(t: Tree, d: nat): seq<int>
  {
    match t
    case Nil => []
    case Node(l, x, r) => if d == 0 then [x] else Level(l, d - 1) + Level(r, d - 1)
  }

  /** Levels 0 to n - 1 of `t`. */
  function LevelsUpTo(t: Tree, n: nat): seq<seq<int>>
  {
    if n == 0 then [] else LevelsUpTo(t, n - 1) + [Level(t, n - 1)]
  }

  /** One group per level, from the root's level down to the deepest. */
  function LevelOrder(t: Tree): seq<seq<int>>
  {
    LevelsUpTo(t, Structure.Height(t) + 1)
  }

  /** The nodes at depth `d` of `t`, from left to right: the queue's contents
      when level `d` starts. */
  function Frontier(t: Tree, d: nat): seq<Tree>
  {
    match t
    case Nil => []
    case Node(l, _, r) => if d == 0 then [t] else Frontier(l, d - 1) + Frontier(r, d - 1)
  }

  /** The children present under node `n`, left before right. */
  function ChildrenOf(n: Tree): seq<Tree>
  {
    if n.Nil? then []
    else (if n.left.Node? then [n.left] else []) + (if n.right.Node? then [n.right] else [])
  }

  /** What visiting the nodes `ns` in order appends to the queue. */
  function Children(ns: seq<Tree>): seq<Tree>
  {
    if ns == [] then [] else ChildrenOf(ns[0]) + Children(ns[1..])
  }

  /** The elements of the nodes `ns`, in order. */
  function Roots(ns: seq<Tree>): seq<int>
  {
    if ns == [] then []
    else (if ns[0].Node? then [ns[0].elem] else []) + Roots(ns[1..])
  }

  lemma {:induction false} ChildrenConcat(a: seq<Tree>, b: seq<Tree>)
    ensures Children(a + b) == Children(a) + Children(b)
  {
    if a == [] {
      assert a + b == b;
    } else {
      assert (a + b)[0] == a[0];
      assert (a + b)[1..] == a[1..] + b;
      ChildrenConcat(a[1..], b);
    }
  }

  lemma {:induction false} RootsConcat(a: seq<Tree>, b: seq<Tree>)
    ensures Roots(a + b) == Roots(a) + Roots(b)
  {
    if a == [] {
      assert a + b == b;
    } else {
      assert (a + b)[0] == a[0];
      assert (a + b)[1..] == a[1..] + b;
      RootsConcat(a[1..], b);
    }
  }

  /** Visiting one more node takes it off the front of the queue, appends
      its children at the back and its element to the current line. */
  lemma VisitOneMore(f: seq<Tree>, i: nat, q: seq<Tree>, line: seq<int>)
    requires i < |f| && f[i].Node?
    requires q == f[i..] + Children(f[..i]) && line == Roots(f[..i])
    ensures q[1..] + ChildrenOf(f[i]) == f[i + 1..] + Children(f[..i + 1])
    ensures line + [f[i].elem] == Roots(f[..i + 1])
    ensures f[i].left.Node? && f[i].right.Node? ==>
              q[1..] + [f[i].left] + [f[i].right] == f[i + 1..] + Children(f[..i + 1])
    ensures f[i].left.Node? && f[i].right.Nil? ==>
              q[1..] + [f[i].left] == f[i + 1..] + Children(f[..i + 1])
    ensures f[i].left.Nil? && f[i].right.Node? ==>
              q[1..] + [f[i].right] == f[i + 1..] + Children(f[..i + 1])
    ensures f[i].left.Nil? && f[i].right.Nil? ==>
              q[1..] == f[i + 1..] + Children(f[..i + 1])
  {
    assert f[..i + 1] == f[..i] + [f[i]];
    assert [f[i]][1..] == [];
    ChildrenConcat(f[..i], [f[i]]);
    RootsConcat(f[..i], [f[i]]);
    assert q[1..] == f[i + 1..] + Children(f[..i]);
  }

  /** Every entry of a level's frontier is a node. */
  lemma {:induction false} FrontierNodes(t: Tree, d: nat)
    ensures forall j :: 0 <= j < |Frontier(t, d)| ==> Frontier(t, d)[j].Node?
  {
    match t
    case Nil =>
    case Node(l, _, r) =>
      if d > 0 {
        FrontierNodes(l, d - 1);
        FrontierNodes(r, d - 1);
        var a, b := Frontier(l, d - 1), Frontier(r, d - 1);
        assert forall j :: |a| <= j < |a + b| ==> (a + b)[j] == b[j - |a|];
      }
  }

  /** The nodes of the next level are the children of this level's nodes, in order. */
  lemma {:induction false} FrontierStep(t: Tree, d: nat)
    ensures Frontier(t, d + 1) == Children(Frontier(t, d))
  {
    match t
    case Nil =>
    case Node(l, _, r) =>
      if d == 0 {
        assert [t][1..] == [];
      } else {
        FrontierStep(l, d - 1);
        FrontierStep(r, d - 1);
        ChildrenConcat(Frontier(l, d - 1), Frontier(r, d - 1));
      }
  }

  /** The elements of the nodes at depth `d` are level `d`. */
  lemma {:induction false} FrontierRoots(t: Tree, d: nat)
    ensures Roots(Frontier(t, d)) == Level(t, d)
  {
    match t
    case Nil =>
    case Node(l, _, r) =>
      if d == 0 {
        assert [t][1..] == [];
      } else {
        FrontierRoots(l, d - 1);
        FrontierRoots(r, d - 1);
        RootsConcat(Frontier(l, d - 1), Frontier(r, d - 1));
      }
  }

  /** There are nodes at depth `d` exactly when `d` is at most the height. */
  lemma {:induction false} FrontierEmptyIff(t: Tree, d: nat)
    ensures Frontier(t, d) == [] <==> d > Structure.Height(t)
  {
    match t
    case Nil =>
    case Node(l, _, r) =>
      if d > 0 {
        FrontierEmptyIff(l, d - 1);
        FrontierEmptyIff(r, d - 1);
      }
  }

  /** The private printLevels: drain a queue seeded with the root, one level
      per round, until a round begins with an empty queue. The source fails
      on an empty tree. */
  method LevelsOf(t: Tree) returns (levels: seq<seq<int>>)
    requires t.Node?
    ensures levels == LevelOrder(t)
  {
    var q := [t];
    levels := [];
    while true
      invariant |levels| <= Structure.Height(t) + 1
      invariant q == Frontier(t, |levels|)
      invariant levels == LevelsUpTo(t, |levels|)
      decreases Structure.Height(t) + 1 - |levels|
    {
      var count := |q|;
      if count == 0 {
        break;
      }
      FrontierNodes(t, |levels|);
      FrontierStep(t, |levels|);
      FrontierRoots(t, |levels|);
      FrontierEmptyIff(t, |levels|);
      var line;
      q, line := VisitLevel(q, count);
      levels := levels + [line];
    }
    FrontierEmptyIff(t, |levels|);
  }

  /** One round of printLevels: take `count` nodes, all of the queue, off
      its front, appending each one's element to the line and its children,
      left before right, to the back of the queue. */
  method VisitLevel(level: seq<Tree>, count: nat) returns (q: seq<Tree>, line: seq<int>)
    requires count == |level|
    requires forall j :: 0 <= j < |level| ==> level[j].Node?
    ensures q == Children(level)
    ensures line == Roots(level)
  {
    q := level;
    line := [];
    var left := count;
    ghost var i := 0;
    while left > 0
      invariant 0 <= i <= |level| && i + left == |level|
      invariant q == level[i..] + Children(level[..i])
      invariant line == Roots(level[..i])
    {
      var temp := q[0];
      assert temp == level[i];
      VisitOneMore(level, i, q, line);
      line := line + [temp.elem];
      q := q[1..];
      if temp.left.Node? {
        q := q + [temp.left];
      }
      if temp.right.Node? {
        q := q + [temp.right];
      }
      left := left - 1;
      i := i + 1;
    }
    assert level[..|level|] == level && level[|level|..] == [];
  }

  /** Flattening groups of elements, in order. */
  function Flatten(ss: seq<seq<int>>): seq<int>
  {
    if ss == [] then [] else Flatten(ss[..|ss| - 1]) + ss[|ss| - 1]
  }

  /** printLevels prints one group per level, height + 1 groups, none empty,
      the first holding just the root. */
  lemma {:induction false} LevelOrderShape(t: Tree)
    ensures |LevelOrder(t)| == Structure.Height(t) + 1
    ensures forall d :: 0 <= d < |LevelOrder(t)| ==> LevelOrder(t)[d] == Level(t, d) && Level(t, d) != []
    ensures t.Node? ==> LevelOrder(t)[0] == [t.elem]
  {
    LevelsUpToIndex(t, Structure.Height(t) + 1);
    forall d | 0 <= d <= Structure.Height(t) ensures Level(t, d) != [] {
      FrontierEmptyIff(t, d);
      FrontierRoots(t, d);
      FrontierNodes(t, d);
      RootsOfNodesNonEmpty(Frontier(t, d));
    }
  }

  lemma {:induction false} LevelsUpToIndex(t: Tree, n: nat)
    ensures |LevelsUpTo(t, n)| == n
    ensures forall d :: 0 <= d < n ==> LevelsUpTo(t, n)[d] == Level(t, d)
  {
    if n > 0 {
      LevelsUpToIndex(t, n - 1);
    }
  }

  lemma RootsOfNodesNonEmpty(ns: seq<Tree>)
    requires ns != [] && forall i :: 0 <= i < |ns| ==> ns[i].Node?
    ensures Roots(ns) != []
  {
  }

  /** The number of times `y` occurs in `s`. */
  function Occurrences(s: seq<int>, y: int): nat
  {
    if s == [] then 0 else (if s[0] == y then 1 else 0) + Occurrences(s[1..], y)
  }

  lemma {:induction false} OccurrencesConcat(a: seq<int>, b: seq<int>, y: int)
    ensures Occurrences(a + b, y) == Occurrences(a, y) + Occurrences(b, y)
  {
    if a == [] {
      assert a + b == b;
    } else {
      assert (a + b)[0] == a[0];
      assert (a + b)[1..] == a[1..] + b;
      OccurrencesConcat(a[1..], b, y);
    }
  }

  /** The number of times `y` occurs in levels 0 to n - 1 of `t`. */
  function OccurrencesUpTo(t: Tree, n: nat, y: int): nat
  {
    if n == 0 then 0 else OccurrencesUpTo(t, n - 1, y) + Occurrences(Level(t, n - 1), y)
  }

  lemma {:induction false} OccurrencesUpToNode(l: Tree, x: int, r: Tree, n: nat, y: int)
    requires n > 0
    ensures OccurrencesUpTo(Node(l, x, r), n, y) ==
              (if x == y then 1 else 0) + OccurrencesUpTo(l, n - 1, y) + OccurrencesUpTo(r, n - 1, y)
  {
    var t := Node(l, x, r);
    if n == 1 {
      assert Level(t, 0) == [x];
      assert [x][1..] == [];
      assert Occurrences([x], y) == if x == y then 1 else 0;
      assert OccurrencesUpTo(l, 0, y) == 0 && OccurrencesUpTo(r, 0, y) == 0;
    } else {
      OccurrencesUpToNode(l, x, r, n - 1, y);
      OccurrencesConcat(Level(l, n - 2), Level(r, n - 2), y);
    }
  }

  lemma {:induction false} OccurrencesUpToNil(n: nat, y: int)
    ensures OccurrencesUpTo(Nil, n, y) == 0
  {
    if n > 0 {
      OccurrencesUpToNil(n - 1, y);
    }
  }

  lemma {:induction false} OccurrencesUpToDeep(t: Tree, n: nat, y: int)
    requires n > Structure.Height(t)
    ensures OccurrencesUpTo(t, n, y) == Occurrences(InOrder(t), y)
  {
    match t
    case Nil =>
      OccurrencesUpToNil(n, y);
    case Node(l, x, r) =>
      OccurrencesUpToDeep(l, n - 1, y);
      OccurrencesUpToDeep(r, n - 1, y);
      OccurrencesUpToNode(l, x, r, n, y);
      OccurrencesConcat(InOrder(l) + [x], InOrder(r), y);
      OccurrencesConcat(InOrder(l), [x], y);
      assert [x][1..] == [];
  }

  lemma {:induction false} FlattenOccurrences(t: Tree, n: nat, y: int)
    ensures Occurrences(Flatten(LevelsUpTo(t, n)), y) == OccurrencesUpTo(t, n, y)
  {
    if n > 0 {
      FlattenOccurrences(t, n - 1, y);
      var prev, lvl := LevelsUpTo(t, n - 1), Level(t, n - 1);
      var all := prev + [lvl];
      assert LevelsUpTo(t, n) == all;
      assert all[..|all| - 1] == prev && all[|all| - 1] == lvl;
      assert Flatten(all) == Flatten(prev) + lvl;
      OccurrencesConcat(Flatten(prev), lvl, y);
    }
  }

  /** The groups printLevels prints hold together every element of the tree,
      each exactly as often as the in-order walk holds it: the flattened
      level order is a permutation of the in-order sequence. */
  lemma LevelOrderHoldsAllElements(t: Tree)
    ensures forall y :: Occurrences(Flatten(LevelOrder(t)), y) == Occurrences(InOrder(t), y)
  {
    var n := Structure.Height(t) + 1;
    assert LevelOrder(t) == LevelsUpTo(t, n);
    forall y ensures Occurrences(Flatten(LevelsUpTo(t, n)), y) == Occurrences(InOrder(t), y) {
      FlattenOccurrences(t, n, y);
      OccurrencesUpToDeep(t, n, y);
    }
  }
}
