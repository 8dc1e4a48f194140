/** The linked AVL tree of src/trading_engine/avl_tree.c, updated in place.

    A ghost Shape records which node sits where and what it holds. The methods are proved to turn
    a linked tree into one whose shape, with the nodes forgotten, is what AvlSpec computes. */
module LinkedAvl {
  import opened Orders
  import opened AvlSpec

  class Node {
    var price: real
    var timestamp: int
    var order: Order
    var left: Node?
    var right: Node?
    var height: int

    constructor (price: real, timestamp: int, order: Order)
      ensures this.price == price && this.timestamp == timestamp && this.order == order
      ensures left == null && right == null && height == 1
    {
      this.price, this.timestamp, this.order := price, timestamp, order;
      left, right, height := null, null, 1;
    }
  }

  datatype Shape =
    | Empty
    | Cell(left: Shape, node: Node, key: Key, order: Order, height: int, right: Shape)

  ghost function Nodes(s: Shape): (r: set<Node>)
    ensures s.Cell? ==> s.node in r
  {
    match s
    case Empty => {}
    case Cell(l, n, _, _, _, r) => Nodes(l) + {n} + Nodes(r)
  }

  /** The value of the tree: its shape without the identity of the nodes. */
  ghost function Erase(s: Shape): (t: Tree)
    ensures (t.Node? <==> s.Cell?) && Height(t) == ShapeHeight(s)
  {
    match s
    case Empty => Leaf
    case Cell(l, _, k, o, h, r) => Tree.Node(Erase(l), k, o, h, Erase(r))
  }

  /** No node sits in two places. */
  ghost predicate Proper(s: Shape) {
    s.Cell? ==>
      && Proper(s.left) && Proper(s.right)
      && s.node !in Nodes(s.left) && s.node !in Nodes(s.right) && Nodes(s.left) !! Nodes(s.right)
  }

  /** A tree has one node per entry, so dropping an entry drops a node and nothing else. */
  lemma {:induction false} OneNodePerEntry(s: Shape)
    requires Proper(s)
    ensures |Nodes(s)| == |Inorder(Erase(s))|
  {
    if s.Cell? {
      OneNodePerEntry(s.left);
      OneNodePerEntry(s.right);
      assert |Nodes(s.left) + {s.node}| == |Nodes(s.left)| + 1;
      assert |Nodes(s.left) + {s.node} + Nodes(s.right)| == |Nodes(s.left) + {s.node}| + |Nodes(s.right)|;
    }
  }

  /** The nodes reachable from `n` are laid out exactly as `s` says. */
  ghost predicate Linked(n: Node?, s: Shape)
    reads Nodes(s)
    ensures Linked(n, s) ==> if n == null then s.Empty? else s.Cell? && s.node == n
    decreases s
  {
    match s
    case Empty => n == null
    case Cell(l, node, k, o, h, r) =>
      && n == node
      && node.price == k.price && node.timestamp == k.time && node.order == o && node.height == h
      && Linked(node.left, l) && Linked(node.right, r)
  }

  ghost predicate IsTree(n: Node?, s: Shape)
    reads Nodes(s)
  {
    Proper(s) && Linked(n, s)
  }

  /** The stored height, 0 for no node. */
  function GetHeight(n: Node?): (h: int)
    reads n
  {
    if n == null then 0 else n.height
  }

  function GetBalance(n: Node?): (b: int)
    reads n, if n == null then {} else {n.left, n.right}
  {
    if n == null then 0 else GetHeight(n.left) - GetHeight(n.right)
  }

  ghost function ShapeHeight(s: Shape): int {
    if s.Empty? then 0 else s.height
  }

  /** A cell whose height is that of its higher subtree plus one. */
  ghost function Join(l: Shape, n: Node, k: Key, o: Order, r: Shape): Shape {
    Cell(l, n, k, o, Max(ShapeHeight(l), ShapeHeight(r)) + 1, r)
  }

  ghost function RightRotated(s: Shape): Shape
    requires s.Cell? && s.left.Cell?
  {
    var x := s.left;
    Join(x.left, x.node, x.key, x.order, Join(x.right, s.node, s.key, s.order, s.right))
  }

  ghost function LeftRotated(s: Shape): Shape
    requires s.Cell? && s.right.Cell?
  {
    var y := s.right;
    Join(Join(s.left, s.node, s.key, s.order, y.left), y.node, y.key, y.order, y.right)
  }

  lemma {:induction false} RightRotatedShape(s: Shape)
    requires Proper(s) && s.Cell? && s.left.Cell?
    ensures Proper(RightRotated(s)) && Nodes(RightRotated(s)) == Nodes(s)
    ensures Erase(RightRotated(s)) == RotateRight(Erase(s))
  {
  }

  lemma {:induction false} LeftRotatedShape(s: Shape)
    requires Proper(s) && s.Cell? && s.right.Cell?
    ensures Proper(LeftRotated(s)) && Nodes(LeftRotated(s)) == Nodes(s)
    ensures Erase(LeftRotated(s)) == RotateLeft(Erase(s))
  {
  }

  method RightRotate(y: Node, ghost s: Shape) returns (x: Node)
    requires IsTree(y, s) && s.left.Cell?
    modifies y, s.left.node
    ensures IsTree(x, RightRotated(s))
    ensures Nodes(RightRotated(s)) == Nodes(s) && Erase(RightRotated(s)) == RotateRight(Erase(s))
  {
    x := y.left;
    var T2 := x.right;
    ghost var a, b, c := s.left.left, s.left.right, s.right;
    assert Linked(x, s.left) && Proper(s.left);

    x.right := y;
    y.left := T2;
    y.height := Max(GetHeight(y.left), GetHeight(y.right)) + 1;
    x.height := Max(GetHeight(x.left), GetHeight(x.right)) + 1;

    assert Linked(x.left, a) && Linked(T2, b) && Linked(y.right, c);
    assert Linked(y, Join(b, y, s.key, s.order, c));
    RightRotatedShape(s);
  }

  method LeftRotate(x: Node, ghost s: Shape) returns (y: Node)
    requires IsTree(x, s) && s.right.Cell?
    modifies x, s.right.node
    ensures IsTree(y, LeftRotated(s))
    ensures Nodes(LeftRotated(s)) == Nodes(s) && Erase(LeftRotated(s)) == RotateLeft(Erase(s))
  {
    y := x.right;
    var T2 := y.left;
    ghost var a, b, c := s.left, s.right.left, s.right.right;
    assert Linked(y, s.right) && Proper(s.right);

    y.left := x;
    x.right := T2;
    x.height := Max(GetHeight(x.left), GetHeight(x.right)) + 1;
    y.height := Max(GetHeight(y.left), GetHeight(y.right)) + 1;

    assert Linked(x.left, a) && Linked(T2, b) && Linked(y.right, c);
    assert Linked(x, Join(a, x, s.key, s.order, b));
    LeftRotatedShape(s);
  }

  /** Rotates the left child left, then the node right. */
  method LeftRightRotate(node: Node, ghost s: Shape) returns (root: Node, ghost s': Shape)
    requires IsTree(node, s) && s.left.Cell? && s.left.right.Cell?
    modifies Nodes(s)
    ensures IsTree(root, s') && Nodes(s') == Nodes(s)
    ensures Erase(s).Node? && Erase(s).left.Node? && Erase(s).left.right.Node?
    ensures Erase(s') == RotateRight(Erase(s).(left := RotateLeft(Erase(s).left)))
  {
    ghost var sl, c := LeftRotated(s.left), s.right;
    ghost var right := node.right;
    assert Linked(node.left, s.left) && Linked(right, c) && Proper(s.left);
    assert {s.left.node, s.left.right.node} !! Nodes(c) && allocated(Nodes(c));
    var l := LeftRotate(node.left, s.left);
    assert Linked(right, c);
    node.left := l;
    assert Linked(right, c) && Linked(l, sl);
    ghost var sm := Cell(sl, node, s.key, s.order, s.height, c);
    root := RightRotate(node, sm);
    s' := RightRotated(sm);
  }

  /** Rotates the right child right, then the node left. */
  method RightLeftRotate(node: Node, ghost s: Shape) returns (root: Node, ghost s': Shape)
    requires IsTree(node, s) && s.right.Cell? && s.right.left.Cell?
    modifies Nodes(s)
    ensures IsTree(root, s') && Nodes(s') == Nodes(s)
    ensures Erase(s).Node? && Erase(s).right.Node? && Erase(s).right.left.Node?
    ensures Erase(s') == RotateLeft(Erase(s).(right := RotateRight(Erase(s).right)))
  {
    ghost var a, sr := s.left, RightRotated(s.right);
    ghost var left := node.left;
    assert Linked(node.right, s.right) && Linked(left, a) && Proper(s.right);
    assert {s.right.node, s.right.left.node} !! Nodes(a) && allocated(Nodes(a));
    var r := RightRotate(node.right, s.right);
    assert Linked(left, a);
    node.right := r;
    assert Linked(left, a) && Linked(r, sr);
    ghost var sm := Cell(a, node, s.key, s.order, s.height, sr);
    root := LeftRotate(node, sm);
    s' := LeftRotated(sm);
  }

  /** Where an over-high child leans inwards, the double rotation has a node to lift. */
  lemma {:induction false} InnerChild(s: Shape)
    requires s.Cell? && AlmostBalanced(Erase(s))
    ensures Balance(Erase(s)) > 1 ==> s.left.Cell? && (Balance(Erase(s.left)) < 0 ==> s.left.right.Cell?)
    ensures Balance(Erase(s)) < -1 ==> s.right.Cell? && (Balance(Erase(s.right)) > 0 ==> s.right.left.Cell?)
  {
    BalancedHeight(Erase(s.left));
    BalancedHeight(Erase(s.right));
    if s.left.Cell? {
      BalancedHeight(Erase(s.left.left));
      BalancedHeight(Erase(s.left.right));
    }
    if s.right.Cell? {
      BalancedHeight(Erase(s.right.left));
      BalancedHeight(Erase(s.right.right));
    }
  }

  lemma {:induction false} BalanceOf(n: Node?, s: Shape)
    requires Linked(n, s)
    ensures GetBalance(n) == Balance(Erase(s))
  {
  }

  /** The end of insert_node: the four cases chosen by comparing keys. */
  method RebalanceInsert(node: Node, price: real, timestamp: int, isBuyTree: bool, ghost s: Shape)
    returns (root: Node, ghost s': Shape)
    requires IsTree(node, s) && AlmostBalanced(Erase(s))
    requires LeansTo(Erase(s), Key(price, timestamp))
    modifies Nodes(s)
    ensures IsTree(root, s') && Nodes(s') == Nodes(s)
    ensures Erase(s') == FixInsert(Erase(s), Key(price, timestamp))
  {
    InnerChild(s);
    BalanceOf(node, s);
    assert Linked(node.left, s.left) && Linked(node.right, s.right);
    var balance := GetBalance(node);
    if balance > 1 && CompareNodes(price, timestamp, node.left.price, node.left.timestamp, isBuyTree) < 0 {
      root := RightRotate(node, s);
      return root, RightRotated(s);
    }
    if balance < -1 && CompareNodes(price, timestamp, node.right.price, node.right.timestamp, isBuyTree) > 0 {
      root := LeftRotate(node, s);
      return root, LeftRotated(s);
    }
    if balance > 1 && CompareNodes(price, timestamp, node.left.price, node.left.timestamp, isBuyTree) > 0 {
      root, s' := LeftRightRotate(node, s);
      return;
    }
    if balance < -1 && CompareNodes(price, timestamp, node.right.price, node.right.timestamp, isBuyTree) < 0 {
      root, s' := RightLeftRotate(node, s);
      return;
    }
    return node, s;
  }

  /** The end of delete_node: the four cases chosen by the balance of the taller child. */
  method RebalanceDelete(node: Node, ghost s: Shape) returns (root: Node, ghost s': Shape)
    requires IsTree(node, s) && AlmostBalanced(Erase(s))
    modifies Nodes(s)
    ensures IsTree(root, s') && Nodes(s') == Nodes(s)
    ensures Erase(s') == FixDelete(Erase(s))
  {
    InnerChild(s);
    BalanceOf(node, s);
    BalanceOf(node.left, s.left);
    BalanceOf(node.right, s.right);
    var balance := GetBalance(node);
    if balance > 1 && GetBalance(node.left) >= 0 {
      root := RightRotate(node, s);
      return root, RightRotated(s);
    }
    if balance > 1 && GetBalance(node.left) < 0 {
      root, s' := LeftRightRotate(node, s);
      return;
    }
    if balance < -1 && GetBalance(node.right) <= 0 {
      root := LeftRotate(node, s);
      return root, LeftRotated(s);
    }
    if balance < -1 && GetBalance(node.right) > 0 {
      root, s' := RightLeftRotate(node, s);
      return;
    }
    return node, s;
  }

  method FindMinNode(n: Node?, ghost s: Shape) returns (m: Node?)
    requires Linked(n, s)
    ensures n == null ==> m == null
    ensures n != null ==> m != null && m in Nodes(s) && Leftmost(Erase(s)) == Entry(Key(m.price, m.timestamp), m.order)
  {
    if n == null {
      return null;
    }
    var node: Node := n;
    ghost var c := s;
    while node.left != null
      invariant c.Cell? && Linked(node, c) && Nodes(c) <= Nodes(s)
      invariant Leftmost(Erase(c)) == Leftmost(Erase(s))
      decreases c
    {
      node, c := node.left, c.left;
    }
    return node;
  }

  method FindMaxNode(n: Node?, ghost s: Shape) returns (m: Node?)
    requires Linked(n, s)
    ensures n == null ==> m == null
    ensures n != null ==> m != null && m in Nodes(s) && Rightmost(Erase(s)) == Entry(Key(m.price, m.timestamp), m.order)
  {
    if n == null {
      return null;
    }
    var node: Node := n;
    ghost var c := s;
    while node.right != null
      invariant c.Cell? && Linked(node, c) && Nodes(c) <= Nodes(s)
      invariant Rightmost(Erase(c)) == Rightmost(Erase(s))
      decreases c
    {
      node, c := node.right, c.right;
    }
    return node;
  }

  /** `node` over the linked trees `l` and `r`, its stored height not yet brought up to date. */
  ghost predicate Over(node: Node, l: Shape, r: Shape)
    reads node, Nodes(l), Nodes(r)
  {
    && Linked(node.left, l) && Linked(node.right, r)
    && Proper(l) && Proper(r) && node !in Nodes(l) && node !in Nodes(r) && Nodes(l) !! Nodes(r)
  }

  /** The layout of a node over `l` and `r` once its height is brought up to date. */
  ghost function Joined(node: Node, l: Shape, r: Shape): (s: Shape)
    reads node
  {
    Join(l, node, Key(node.price, node.timestamp), node.order, r)
  }

  method UpdateNodeHeight(node: Node, ghost l: Shape, ghost r: Shape)
    requires Over(node, l, r)
    modifies node`height
    ensures IsTree(node, Joined(node, l, r))
  {
    node.height := Max(GetHeight(node.left), GetHeight(node.right)) + 1;
    assert Linked(node.left, l) && Linked(node.right, r);
  }

  method InsertNode(node: Node?, price: real, timestamp: int, order: Order, isBuyTree: bool, ghost s: Shape)
    returns (root: Node, ghost s': Shape, ghost calls: nat)
    requires IsTree(node, s) && Balanced(Erase(s))
    modifies Nodes(s)
    ensures IsTree(root, s') && Nodes(s) <= Nodes(s') && fresh(Nodes(s') - Nodes(s))
    ensures Erase(s') == Insert(Erase(s), Key(price, timestamp), order)
    ensures calls <= Height(Erase(s)) + 1
    decreases s, 1
  {
    if node == null {
      root := new Node(price, timestamp, order);
      s', calls := Cell(Empty, root, Key(price, timestamp), order, 1, Empty), 1;
      return;
    }
    InsertSteps(Erase(s), Key(price, timestamp), order);
    var cmp := CompareNodes(price, timestamp, node.price, node.timestamp, isBuyTree);
    ghost var l, r := s.left, s.right;
    if cmp < 0 {
      l, calls := InsertLeft(node, price, timestamp, order, isBuyTree, s);
    } else if cmp > 0 {
      r, calls := InsertRight(node, price, timestamp, order, isBuyTree, s);
    } else {
      BalancedHeight(Erase(s));
      return node, s, 1;
    }
    UpdateNodeHeight(node, l, r);
    root, s' := RebalanceInsert(node, price, timestamp, isBuyTree, Joined(node, l, r));
    calls := calls + 1;
  }

  method InsertLeft(node: Node, price: real, timestamp: int, order: Order, isBuyTree: bool, ghost s: Shape)
    returns (ghost l: Shape, ghost calls: nat)
    requires IsTree(node, s) && Balanced(Erase(s))
    modifies Nodes(s)
    ensures Over(node, l, s.right) && Nodes(s.left) <= Nodes(l) && fresh(Nodes(l) - Nodes(s.left))
    ensures Erase(l) == Insert(Erase(s.left), Key(price, timestamp), order)
    ensures calls <= Height(Erase(s.left)) + 1
    ensures node.price == s.key.price && node.timestamp == s.key.time && node.order == s.order
    decreases s, 0
  {
    assert Linked(node.left, s.left) && Linked(node.right, s.right) && allocated(Nodes(s.right));
    var child;
    child, l, calls := InsertNode(node.left, price, timestamp, order, isBuyTree, s.left);
    assert Linked(node.right, s.right);
    node.left := child;
    assert Linked(node.right, s.right);
  }

  method InsertRight(node: Node, price: real, timestamp: int, order: Order, isBuyTree: bool, ghost s: Shape)
    returns (ghost r: Shape, ghost calls: nat)
    requires IsTree(node, s) && Balanced(Erase(s))
    modifies Nodes(s)
    ensures Over(node, s.left, r) && Nodes(s.right) <= Nodes(r) && fresh(Nodes(r) - Nodes(s.right))
    ensures Erase(r) == Insert(Erase(s.right), Key(price, timestamp), order)
    ensures calls <= Height(Erase(s.right)) + 1
    ensures node.price == s.key.price && node.timestamp == s.key.time && node.order == s.order
    decreases s, 0
  {
    assert Linked(node.left, s.left) && Linked(node.right, s.right) && allocated(Nodes(s.left));
    var child;
    child, r, calls := InsertNode(node.right, price, timestamp, order, isBuyTree, s.right);
    assert Linked(node.left, s.left);
    node.right := child;
    assert Linked(node.left, s.left);
  }

  method DeleteNode(root: Node?, price: real, timestamp: int, isBuyTree: bool, ghost s: Shape)
    returns (root': Node?, ghost s': Shape, ghost calls: nat)
    requires IsTree(root, s) && Balanced(Erase(s))
    modifies Nodes(s)
    ensures IsTree(root', s') && Nodes(s') <= Nodes(s)
    ensures Erase(s') == Delete(Erase(s), Key(price, timestamp))
    ensures calls <= Height(Erase(s)) + 1
    decreases s, 2
  {
    if root == null {
      return null, Empty, 1;
    }
    DeleteSteps(Erase(s), Key(price, timestamp));
    var removed; ghost var l, r;
    removed, l, r, calls := RemoveKey(root, price, timestamp, isBuyTree, s);
    calls := calls + 1;
    if removed {
      return null, Empty, calls;
    }
    UpdateNodeHeight(root, l, r);
    root', s' := RebalanceDelete(root, Joined(root, l, r));
  }

  /** The first half of delete_node; true when the node was a leaf and is to be dropped. */
  method RemoveKey(root: Node, price: real, timestamp: int, isBuyTree: bool, ghost s: Shape)
    returns (removed: bool, ghost l: Shape, ghost r: Shape, ghost calls: nat)
    requires IsTree(root, s) && Balanced(Erase(s))
    modifies Nodes(s)
    ensures var u := DeleteStep(Erase(s), Key(price, timestamp));
            if removed then u.Leaf?
            else u.Node? && Over(root, l, r) && Erase(Joined(root, l, r)) == UpdateHeight(u)
    ensures Nodes(l) + Nodes(r) <= Nodes(s)
    ensures calls <= Height(Erase(s))
    decreases s, 1
  {
    DeleteSteps(Erase(s), Key(price, timestamp));
    removed, l, r, calls := false, s.left, s.right, 0;
    var cmp := CompareNodes(price, timestamp, root.price, root.timestamp, isBuyTree);
    if cmp < 0 {
      l, calls := DeleteLeft(root, price, timestamp, isBuyTree, s);
    } else if cmp > 0 {
      r, calls := DeleteRight(root, price, timestamp, isBuyTree, s);
    } else if root.left == null || root.right == null {
      removed, l, r := RemoveByCopy(root, s);
    } else {
      ghost var e := MoveUp(root, s);
      r, calls := DeleteRight(root, root.price, root.timestamp, isBuyTree, s.(key := e.key, order := e.order));
    }
  }

  /** A found node with at most one child: dropped when it has none, overwritten by the child otherwise. */
  method RemoveByCopy(root: Node, ghost s: Shape) returns (removed: bool, ghost l: Shape, ghost r: Shape)
    requires IsTree(root, s) && (s.left.Empty? || s.right.Empty?)
    modifies root
    ensures removed <==> s.left.Empty? && s.right.Empty?
    ensures Nodes(l) + Nodes(r) <= Nodes(s)
    ensures !removed ==>
              var child := if s.left.Cell? then s.left else s.right;
              Over(root, l, r) && Erase(Joined(root, l, r)) == UpdateHeight(Erase(child))
  {
    assert Linked(root.left, s.left) && Linked(root.right, s.right);
    var temp := if root.left != null then root.left else root.right;
    ghost var child := if root.left != null then s.left else s.right;
    if temp == null {
      return true, Empty, Empty;
    }
    CopyChild(root, temp, child);
    return false, child.left, child.right;
  }

  method DeleteLeft(node: Node, price: real, timestamp: int, isBuyTree: bool, ghost s: Shape)
    returns (ghost l: Shape, ghost calls: nat)
    requires IsTree(node, s) && Balanced(Erase(s))
    modifies Nodes(s)
    ensures Over(node, l, s.right) && Nodes(l) <= Nodes(s.left)
    ensures Erase(l) == Delete(Erase(s.left), Key(price, timestamp))
    ensures calls <= Height(Erase(s.left)) + 1
    ensures node.price == s.key.price && node.timestamp == s.key.time && node.order == s.order
    decreases s.left, 3
  {
    assert Linked(node.left, s.left) && Linked(node.right, s.right) && allocated(Nodes(s.right));
    var child;
    child, l, calls := DeleteNode(node.left, price, timestamp, isBuyTree, s.left);
    assert Linked(node.right, s.right);
    node.left := child;
    assert Linked(node.right, s.right);
  }

  method DeleteRight(node: Node, price: real, timestamp: int, isBuyTree: bool, ghost s: Shape)
    returns (ghost r: Shape, ghost calls: nat)
    requires IsTree(node, s) && Balanced(Erase(s.right))
    modifies Nodes(s)
    ensures Over(node, s.left, r) && Nodes(r) <= Nodes(s.right)
    ensures Erase(r) == Delete(Erase(s.right), Key(price, timestamp))
    ensures calls <= Height(Erase(s.right)) + 1
    ensures node.price == s.key.price && node.timestamp == s.key.time && node.order == s.order
    decreases s.right, 3
  {
    assert Linked(node.left, s.left) && Linked(node.right, s.right) && allocated(Nodes(s.left));
    var child;
    child, r, calls := DeleteNode(node.right, price, timestamp, isBuyTree, s.right);
    assert Linked(node.left, s.left);
    node.right := child;
    assert Linked(node.left, s.left);
  }

  /** The start of the two-child case: the successor's data moves up into the node. */
  method MoveUp(node: Node, ghost s: Shape) returns (ghost e: Entry)
    requires IsTree(node, s) && s.right.Cell?
    modifies node`price, node`timestamp, node`order
    ensures e == Leftmost(Erase(s.right)) && IsTree(node, s.(key := e.key, order := e.order))
  {
    assert Linked(node.right, s.right) && allocated(Nodes(s));
    e := Leftmost(Erase(s.right));
    var temp := FindMinNode(node.right, s.right);
    assert Linked(node, s);
    SetData(node, temp.price, temp.timestamp, temp.order, s);
  }

  method SetData(node: Node, price: real, timestamp: int, order: Order, ghost s: Shape)
    requires IsTree(node, s)
    modifies node`price, node`timestamp, node`order
    ensures IsTree(node, s.(key := Key(price, timestamp), order := order))
  {
    ghost var l, r := s.left, s.right;
    assert Linked(node.left, l) && Linked(node.right, r) && node !in Nodes(l) && node !in Nodes(r);
    assert allocated(Nodes(l)) && allocated(Nodes(r));
    node.price, node.timestamp, node.order := price, timestamp, order;
    assert Linked(node.left, l) && Linked(node.right, r);
  }

  /** The one-child case: the child's whole contents are copied into the node, and the child is dropped. */
  method CopyChild(node: Node, temp: Node, ghost child: Shape)
    requires IsTree(temp, child) && node !in Nodes(child)
    modifies node
    ensures Over(node, child.left, child.right)
    ensures node.price == child.key.price && node.timestamp == child.key.time && node.order == child.order
  {
    ghost var l, r := child.left, child.right;
    assert Linked(temp.left, l) && Linked(temp.right, r) && node !in Nodes(l) && node !in Nodes(r);
    node.price, node.timestamp, node.order, node.left, node.right, node.height :=
      temp.price, temp.timestamp, temp.order, temp.left, temp.right, temp.height;
    assert Linked(node.left, l) && Linked(node.right, r);
  }

  /** The in-order traversal: the orders in the sequence in which the callback gets them. */
  method InorderTraverse(node: Node?, visited: seq<Order>, ghost c: Shape) returns (visited': seq<Order>)
    requires Linked(node, c)
    ensures visited' == visited + TreeOrders(Erase(c))
    decreases c
  {
    if node == null {
      return visited;
    }
    assert Linked(node.left, c.left) && Linked(node.right, c.right) && allocated(Nodes(c.right));
    visited' := InorderTraverse(node.left, visited, c.left);
    visited' := visited' + [node.order];
    visited' := InorderTraverse(node.right, visited', c.right);
    TreeOrdersUnfold(Erase(c));
  }

  lemma {:induction false} SameNodes(a: set<Node>, b: set<Node>)
    requires a <= b && |a| == |b|
    ensures a == b
  {
    assert b == a + (b - a);
    assert |b| == |a| + |b - a|;
  }

  /** Insertion adds one node for a new key and none for a taken one, which leaves the tree as it was. */
  lemma {:induction false} InsertedNodes(s: Shape, s': Shape, k: Key, o: Order)
    requires Proper(s) && Proper(s') && Nodes(s) <= Nodes(s')
    requires Avl(Erase(s)) && Erase(s') == Insert(Erase(s), k, o)
    ensures var taken := HasKey(Inorder(Erase(s)), k);
            && Avl(Erase(s')) && Inorder(Erase(s')) == WithEntry(Inorder(Erase(s)), Entry(k, o))
            && |Nodes(s')| - |Nodes(s)| == |Inorder(Erase(s'))| - |Inorder(Erase(s))| == (if taken then 0 else 1)
            && (taken ==> Erase(s') == Erase(s) && Nodes(s') == Nodes(s))
  {
    OneNodePerEntry(s);
    OneNodePerEntry(s');
    InsertAvl(Erase(s), k, o);
    InsertInorder(Erase(s), k, o);
    EntryCount(Inorder(Erase(s)), Entry(k, o));
    if HasKey(Inorder(Erase(s)), k) {
      InsertTaken(Erase(s), k, o);
      SameNodes(Nodes(s), Nodes(s'));
    }
  }

  /** Deletion drops one node for a present key and none for an absent one, which leaves the tree as it was. */
  lemma {:induction false} DeletedNodes(s: Shape, s': Shape, k: Key)
    requires Proper(s) && Proper(s') && Nodes(s') <= Nodes(s)
    requires Avl(Erase(s)) && Erase(s') == Delete(Erase(s), k)
    ensures var found := HasKey(Inorder(Erase(s)), k);
            && Avl(Erase(s')) && Inorder(Erase(s')) == Without(Inorder(Erase(s)), k)
            && |Nodes(s)| - |Nodes(s')| == |Inorder(Erase(s))| - |Inorder(Erase(s'))| == (if found then 1 else 0)
            && (!found ==> Erase(s') == Erase(s) && Nodes(s') == Nodes(s))
  {
    OneNodePerEntry(s);
    OneNodePerEntry(s');
    DeleteAvl(Erase(s), k);
    DeleteInorder(Erase(s), k);
    RemovalCount(Inorder(Erase(s)), k);
    if !HasKey(Inorder(Erase(s)), k) {
      DeleteAbsent(Erase(s), k);
      SameNodes(Nodes(s'), Nodes(s));
    }
  }

  /** One side of an order book. */
  class AvlTree {
    const isBuyTree: bool
    var root: Node?
    ghost var shape: Shape
    ghost var Repr: set<Node>

    ghost predicate Valid()
      reads this, Repr
    {
      Repr == Nodes(shape) && IsTree(root, shape) && Avl(Erase(shape))
    }

    /** The tree as a value. */
    ghost function Value(): (t: Tree)
      reads this
    {
      Erase(shape)
    }

    constructor (isBuyTree: bool)
      ensures Valid() && Value() == Leaf && this.isBuyTree == isBuyTree && Repr == {}
    {
      this.isBuyTree := isBuyTree;
      root, shape, Repr := null, Empty, {};
    }

    predicate IsEmpty()
      reads this, Repr
      requires Valid()
      ensures IsEmpty() <==> Inorder(Value()) == []
    {
      root == null
    }

    /** Makes `r`, laid out as `s`, the tree of this side. */
    method Adopt(r: Node?, ghost s: Shape)
      requires IsTree(r, s) && Avl(Erase(s))
      modifies this
      ensures Valid() && root == r && shape == s && Repr == Nodes(s)
    {
      root, shape, Repr := r, s, Nodes(s);
      assert Linked(root, shape);
    }

    /** Files an order under (price, timestamp); with that key already taken the tree does not change. */
    method Insert(price: real, timestamp: int, order: Order) returns (ghost calls: nat)
      requires Valid()
      modifies this, Repr
      ensures Valid() && fresh(Repr - old(Repr))
      ensures calls <= Height(old(Value())) + 1
      ensures Value() == AvlSpec.Insert(old(Value()), Key(price, timestamp), order)
      ensures Inorder(Value()) == WithEntry(old(Inorder(Value())), Entry(Key(price, timestamp), order))
      // A node is added exactly when an entry is; otherwise neither the value nor the nodes change.
      ensures 0 <= |Repr| - old(|Repr|) == |Inorder(Value())| - old(|Inorder(Value())|) <= 1
      ensures |Repr| == old(|Repr|) ==> Value() == old(Value()) && Repr == old(Repr)
    {
      var r; ghost var s;
      r, s, calls := InsertNode(root, price, timestamp, order, isBuyTree, shape);
      InsertedNodes(shape, s, Key(price, timestamp), order);
      Adopt(r, s);
    }

    /** Removes the entry filed under (price, timestamp), if there is one. */
    method DeleteOrder(price: real, timestamp: int) returns (ghost calls: nat)
      requires Valid()
      modifies this, Repr
      ensures Valid() && Repr <= old(Repr)
      ensures calls <= Height(old(Value())) + 1
      ensures Value() == Delete(old(Value()), Key(price, timestamp))
      ensures Inorder(Value()) == Without(old(Inorder(Value())), Key(price, timestamp))
      // A node is dropped exactly when an entry is; otherwise neither the value nor the nodes change.
      ensures 0 <= old(|Repr|) - |Repr| == old(|Inorder(Value())|) - |Inorder(Value())| <= 1
      ensures |Repr| == old(|Repr|) ==> Value() == old(Value()) && Repr == old(Repr)
    {
      var r; ghost var s;
      r, s, calls := DeleteNode(root, price, timestamp, isBuyTree, shape);
      DeletedNodes(shape, s, Key(price, timestamp));
      Adopt(r, s);
    }

    /** The order with the least key, null when there is none. */
    method FindMin() returns (order: Order?)
      requires Valid()
      ensures Value().Leaf? ==> order == null
      ensures Value().Node? ==> order == Leftmost(Value()).order
    {
      var n := FindMinNode(root, shape);
      return if n == null then null else n.order;
    }

    /** The order with the greatest key, null when there is none. */
    method FindMax() returns (order: Order?)
      requires Valid()
      ensures Value().Leaf? ==> order == null
      ensures Value().Node? ==> order == Rightmost(Value()).order
    {
      var n := FindMaxNode(root, shape);
      return if n == null then null else n.order;
    }

    /** All orders, in ascending order of their keys. */
    method Traverse() returns (visited: seq<Order>)
      requires Valid()
      ensures visited == TreeOrders(Value())
    {
      visited := InorderTraverse(root, [], shape);
    }
  }
}
