/** Insertion into the search tree: the descent that finds a free slot, the link, and whatever
    rotations the rebalancing makes. */
module OrderedTree {
  datatype Tree = Leaf | Node(left: Tree, val: int, right: Tree)

  function InOrder(t: Tree): seq<int> {
    match t
    case Leaf => []
    case Node(l, v, r) => InOrder(l) + [v] + InOrder(r)
  }

  predicate Ascending(s: seq<int>) {
    forall i, j :: 0 <= i < j < |s| ==> s[i] < s[j]
  }

  // ----- rotations

  /** A rotation at the node reached by a path of left (false) and right (true) turns. */
  datatype Rotation = Rotation(path: seq<bool>, toLeft: bool)

  function RotateHere(t: Tree, toLeft: bool): Tree {
    if toLeft then
      match t
      case Node(a, x, Node(b, y, c)) => Node(Node(a, x, b), y, c)
      case _ => t
    else
      match t
      case Node(Node(a, x, b), y, c) => Node(a, x, Node(b, y, c))
      case _ => t
  }

  function RotateAt(t: Tree, path: seq<bool>, toLeft: bool): Tree
    decreases t
  {
    if path == [] then RotateHere(t, toLeft)
    else
      match t
      case Leaf => Leaf
      case Node(l, v, r) =>
        if path[0] then Node(l, v, RotateAt(r, path[1..], toLeft))
        else Node(RotateAt(l, path[1..], toLeft), v, r)
  }

  function Rebalanced(t: Tree, rotations: seq<Rotation>): Tree
    decreases |rotations|
  {
    if rotations == [] then t
    else Rebalanced(RotateAt(t, rotations[0].path, rotations[0].toLeft), rotations[1..])
  }

  lemma {:induction false} RotationKeepsOrder(t: Tree, path: seq<bool>, toLeft: bool)
    ensures InOrder(RotateAt(t, path, toLeft)) == InOrder(t)
    decreases t
  {
    if path == [] {
      RotateHereKeepsOrder(t, toLeft);
    } else if t.Node? {
      if path[0] {
        RotationKeepsOrder(t.right, path[1..], toLeft);
      } else {
        RotationKeepsOrder(t.left, path[1..], toLeft);
      }
    }
  }

  lemma RotateHereKeepsOrder(t: Tree, toLeft: bool)
    ensures InOrder(RotateHere(t, toLeft)) == InOrder(t)
  {
    if toLeft && t.Node? && t.right.Node? {
      var a, b, c := InOrder(t.left), InOrder(t.right.left), InOrder(t.right.right);
      assert a + [t.val] + (b + [t.right.val] + c) == (a + [t.val] + b) + [t.right.val] + c;
    } else if !toLeft && t.Node? && t.left.Node? {
      var a, b, c := InOrder(t.left.left), InOrder(t.left.right), InOrder(t.right);
      assert a + [t.left.val] + (b + [t.val] + c) == (a + [t.left.val] + b) + [t.val] + c;
    }
  }

  /** The node a path leads to. */
  function SubtreeAt(t: Tree, path: seq<bool>): Tree
    decreases t
  {
    if path == [] || t.Leaf? then t
    else SubtreeAt(if path[0] then t.right else t.left, path[1..])
  }

  /** A rotation really turns the node at its path: the child that has a subtree to give comes
      up, the node goes down the other way, and turning back undoes it. */
  lemma {:induction false} RotationTurns(t: Tree, path: seq<bool>)
    ensures var node, up := SubtreeAt(t, path), RotateAt(t, path, true);
            node.Node? && node.right.Node? ==>
              && SubtreeAt(up, path)
                 == Node(Node(node.left, node.val, node.right.left), node.right.val, node.right.right)
              && RotateAt(up, path, false) == t
    ensures var node, up := SubtreeAt(t, path), RotateAt(t, path, false);
            node.Node? && node.left.Node? ==>
              && SubtreeAt(up, path)
                 == Node(node.left.left, node.left.val, Node(node.left.right, node.val, node.right))
              && RotateAt(up, path, true) == t
    decreases t
  {
    if path != [] && t.Node? {
      RotationTurns(if path[0] then t.right else t.left, path[1..]);
    }
  }

  /** Any sequence of rotations keeps the in-order walk. */
  lemma {:induction false} RebalancingKeepsOrder(t: Tree, rotations: seq<Rotation>)
    ensures InOrder(Rebalanced(t, rotations)) == InOrder(t)
    decreases |rotations|
  {
    if rotations != [] {
      RotationKeepsOrder(t, rotations[0].path, rotations[0].toLeft);
      RebalancingKeepsOrder(RotateAt(t, rotations[0].path, rotations[0].toLeft), rotations[1..]);
    }
  }

  // ----- the descent

  /** What lies around the slot that the descent has reached, nearest node first. */
  datatype Turn = WentLeft(val: int, right: Tree) | WentRight(left: Tree, val: int)

  function Plug(t: Tree, turns: seq<Turn>): Tree
    decreases |turns|
  {
    if turns == [] then t
    else
      match turns[0]
      case WentLeft(v, r) => Plug(Node(t, v, r), turns[1..])
      case WentRight(l, v) => Plug(Node(l, v, t), turns[1..])
  }

  function Before(turns: seq<Turn>): seq<int> {
    if turns == [] then []
    else if turns[0].WentRight? then Before(turns[1..]) + (InOrder(turns[0].left) + [turns[0].val])
    else Before(turns[1..])
  }

  function After(turns: seq<Turn>): seq<int> {
    if turns == [] then []
    else if turns[0].WentLeft? then [turns[0].val] + InOrder(turns[0].right) + After(turns[1..])
    else After(turns[1..])
  }

  lemma TurnLeft(b: seq<int>, t: seq<int>, v: int, r: seq<int>, a: seq<int>)
    ensures b + (t + [v] + r) + a == b + t + ([v] + r + a)
  {
  }

  lemma TurnRight(b: seq<int>, l: seq<int>, v: int, t: seq<int>, a: seq<int>)
    ensures b + (l + [v] + t) + a == b + (l + [v]) + t + a
  {
  }

  lemma {:induction false} PlugInOrder(t: Tree, turns: seq<Turn>)
    ensures InOrder(Plug(t, turns)) == Before(turns) + InOrder(t) + After(turns)
    decreases |turns|
  {
    if turns == [] {
      assert [] + InOrder(t) + [] == InOrder(t);
    } else {
      var b, a := Before(turns[1..]), After(turns[1..]);
      match turns[0] {
        case WentLeft(v, r) =>
          PlugInOrder(Node(t, v, r), turns[1..]);
          TurnLeft(b, InOrder(t), v, InOrder(r), a);
        case WentRight(l, v) =>
          PlugInOrder(Node(l, v, t), turns[1..]);
          TurnRight(b, InOrder(l), v, InOrder(t), a);
      }
    }
  }

  /** A value put where everything before is smaller and everything after is larger. */
  lemma AscendingInsert(a: seq<int>, x: int, b: seq<int>)
    requires Ascending(a + b) && (forall y :: y in a ==> y < x) && (forall y :: y in b ==> x < y)
    ensures Ascending(a + [x] + b)
  {
    var s, s' := a + b, a + [x] + b;
    forall i, j | 0 <= i < j < |s'| ensures s'[i] < s'[j] {
      if i >= |a| {
        assert s'[j] == b[j - |a| - 1] && b[j - |a| - 1] in b;
        assert i > |a| ==> s'[i] == s[i - 1] && s'[j] == s[j - 1];
      } else {
        assert s'[i] == a[i] == s[i] && a[i] in a;
        assert j > |a| ==> s'[j] == s[j - 1];
        assert j < |a| ==> s'[j] == s[j];
      }
    }
  }

  lemma AscendingParts(p: seq<int>, v: int, q: seq<int>)
    requires Ascending(p + [v] + q)
    ensures (forall y :: y in p ==> y < v) && (forall y :: y in q ==> v < y)
  {
    var s := p + [v] + q;
    assert s[|p|] == v;
    forall y | y in q ensures v < y {
      var k :| 0 <= k < |q| && q[k] == y;
      assert s[|p| + 1 + k] == y;
    }
    forall y | y in p ensures y < v {
      var k :| 0 <= k < |p| && p[k] == y;
      assert s[k] == y;
    }
  }

  /** The descent so far: the subtree reached and what lies around it make the whole tree, and
      `x` belongs nowhere but in that subtree. */
  predicate Slot(tree: Tree, cur: Tree, turns: seq<Turn>, x: int) {
    && Plug(cur, turns) == tree
    && (forall y :: y in Before(turns) ==> y < x)
    && (forall y :: y in After(turns) ==> x < y)
  }

  /** Against a node in the middle of an ascending walk. */
  lemma AroundNode(b: seq<int>, l: seq<int>, v: int, r: seq<int>, a: seq<int>)
    requires Ascending(b + (l + [v] + r) + a)
    ensures forall y :: y in b + (l + [v]) ==> y <= v
    ensures forall y :: y in [v] + r + a ==> v <= y
  {
    assert b + (l + [v] + r) + a == (b + l) + [v] + (r + a);
    AscendingParts(b + l, v, r + a);
    assert b + (l + [v]) == (b + l) + [v];
    assert [v] + r + a == [v] + (r + a);
  }

  lemma DescendLeft(tree: Tree, cur: Tree, turns: seq<Turn>, x: int)
    requires Slot(tree, cur, turns, x) && Ascending(InOrder(tree)) && cur.Node? && x < cur.val
    ensures Slot(tree, cur.left, [WentLeft(cur.val, cur.right)] + turns, x)
  {
    PlugInOrder(cur, turns);
    AroundNode(Before(turns), InOrder(cur.left), cur.val, InOrder(cur.right), After(turns));
    hide Ascending, InOrder;
    var turns' := [WentLeft(cur.val, cur.right)] + turns;
    assert turns'[1..] == turns;
  }

  lemma DescendRight(tree: Tree, cur: Tree, turns: seq<Turn>, x: int)
    requires Slot(tree, cur, turns, x) && Ascending(InOrder(tree)) && cur.Node? && cur.val < x
    ensures Slot(tree, cur.right, [WentRight(cur.left, cur.val)] + turns, x)
  {
    PlugInOrder(cur, turns);
    AroundNode(Before(turns), InOrder(cur.left), cur.val, InOrder(cur.right), After(turns));
    hide Ascending, InOrder;
    var turns' := [WentRight(cur.left, cur.val)] + turns;
    assert turns'[1..] == turns;
  }

  lemma InsertedBetween(b: seq<int>, x: int, a: seq<int>)
    ensures b + [] + a == b + a
    ensures forall y :: y in b + [x] + a <==> y in b + [] + a || y == x
  {
    assert b + [] + a == b + a;
  }

  lemma Links(tree: Tree, turns: seq<Turn>, x: int)
    requires Slot(tree, Leaf, turns, x) && Ascending(InOrder(tree))
    ensures x !in InOrder(tree)
    ensures Ascending(InOrder(Plug(Node(Leaf, x, Leaf), turns)))
    ensures forall y :: y in InOrder(Plug(Node(Leaf, x, Leaf), turns)) <==> y in InOrder(tree) || y == x
  {
    var b, a := Before(turns), After(turns);
    PlugInOrder(Leaf, turns);
    PlugInOrder(Node(Leaf, x, Leaf), turns);
    assert InOrder(Node(Leaf, x, Leaf)) == [x] && InOrder(Leaf) == [];
    hide InOrder, Plug, Before, After;
    InsertedBetween(b, x, a);
    AscendingInsert(b, x, a);
  }

  /** Descends, links, rebalances; a value already there is refused and nothing changes. */
  method Insert(tree: Tree, x: int, rebalance: Tree -> seq<Rotation>) returns (r: Tree, ret: int)
    requires Ascending(InOrder(tree))
    ensures Ascending(InOrder(r))
    ensures ret == if x in InOrder(tree) then -1 else 0
    ensures ret == -1 ==> r == tree
    ensures forall y :: y in InOrder(r) <==> y in InOrder(tree) || y == x
  {
    hide InOrder, Slot, Plug;
    var cur, turns := tree, [];
    assert Slot(tree, tree, [], x) by { StartsAtRoot(tree, x); }
    while cur.Node?
      invariant Slot(tree, cur, turns, x)
      decreases cur
    {
      if cur.val > x {
        DescendLeft(tree, cur, turns, x);
        turns := [WentLeft(cur.val, cur.right)] + turns;
        cur := cur.left;
      } else if cur.val < x {
        DescendRight(tree, cur, turns, x);
        turns := [WentRight(cur.left, cur.val)] + turns;
        cur := cur.right;
      } else {
        AlreadyThere(tree, cur, turns, x);
        return tree, -1;
      }
    }
    Links(tree, turns, x);
    var linked := Plug(Node(Leaf, x, Leaf), turns);
    r := Rebalanced(linked, rebalance(linked));
    RebalancingKeepsOrder(linked, rebalance(linked));
    return r, 0;
  }

  lemma StartsAtRoot(tree: Tree, x: int)
    ensures Slot(tree, tree, [], x)
  {
  }

  lemma AlreadyThere(tree: Tree, cur: Tree, turns: seq<Turn>, x: int)
    requires Slot(tree, cur, turns, x) && cur.Node? && cur.val == x
    ensures x in InOrder(tree)
  {
    PlugInOrder(cur, turns);
    assert x in InOrder(cur);
  }
}
