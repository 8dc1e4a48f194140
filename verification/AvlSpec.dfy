/** The AVL tree of src/trading_engine/avl_tree.c as a value, and what its operations do.

    Insert and Delete follow the source branch by branch, on stored heights. Their meaning is
    stated over the in-order sequence of the tree, by functions that know nothing of trees. */
module AvlSpec {
  import opened Orders

  datatype Tree =
    | Leaf
    | Node(left: Tree, key: Key, order: Order, height: int, right: Tree)

  datatype Entry = Entry(key: Key, order: Order)

  // ----- the order of keys -----

  /** The comparison of the source. Its flag has no effect: both kinds of tree ascend by price, then time. */
  function CompareNodes(price1: real, time1: int, price2: real, time2: int, isBuyTree: bool): (r: int)
    ensures r < 0 <==> Less(Key(price1, time1), Key(price2, time2))
    ensures r > 0 <==> Less(Key(price2, time2), Key(price1, time1))
    ensures r == 0 <==> Key(price1, time1) == Key(price2, time2)
  {
    if price1 != price2 then
      if isBuyTree then (if price1 > price2 then 1 else -1)
      else (if price1 < price2 then -1 else 1)
    else if time1 < time2 then -1
    else if time1 > time2 then 1
    else 0
  }

  // ----- sequences of entries -----

  ghost predicate Sorted(s: seq<Entry>) {
    forall i, j :: 0 <= i < j < |s| ==> Less(s[i].key, s[j].key)
  }

  ghost predicate HasKey(s: seq<Entry>, k: Key) {
    exists i :: 0 <= i < |s| && s[i].key == k
  }

  ghost predicate AllLess(s: seq<Entry>, k: Key) {
    forall i :: 0 <= i < |s| ==> Less(s[i].key, k)
  }

  ghost predicate AllGreater(k: Key, s: seq<Entry>) {
    forall i :: 0 <= i < |s| ==> Less(k, s[i].key)
  }

  function Below(s: seq<Entry>, k: Key): (r: seq<Entry>) {
    if s == [] then []
    else (if Less(s[0].key, k) then [s[0]] else []) + Below(s[1..], k)
  }

  function Above(s: seq<Entry>, k: Key): (r: seq<Entry>) {
    if s == [] then []
    else (if Less(k, s[0].key) then [s[0]] else []) + Above(s[1..], k)
  }

  /** The sequence without the entries filed under `k`. */
  function Without(s: seq<Entry>, k: Key): (r: seq<Entry>) {
    if s == [] then []
    else (if s[0].key == k then [] else [s[0]]) + Without(s[1..], k)
  }

  /** The sequence with `e` at its sorted position; an entry already filed under the key stays instead. */
  ghost function WithEntry(s: seq<Entry>, e: Entry): (r: seq<Entry>) {
    if HasKey(s, e.key) then s else Below(s, e.key) + [e] + Above(s, e.key)
  }

  lemma {:induction false} BelowConcat(a: seq<Entry>, b: seq<Entry>, k: Key)
    ensures Below(a + b, k) == Below(a, k) + Below(b, k)
  {
    if a == [] {
      assert a + b == b;
    } else {
      assert (a + b)[1..] == a[1..] + b;
      BelowConcat(a[1..], b, k);
    }
  }

  lemma {:induction false} AboveConcat(a: seq<Entry>, b: seq<Entry>, k: Key)
    ensures Above(a + b, k) == Above(a, k) + Above(b, k)
  {
    if a == [] {
      assert a + b == b;
    } else {
      assert (a + b)[1..] == a[1..] + b;
      AboveConcat(a[1..], b, k);
    }
  }

  lemma {:induction false} WithoutConcat(a: seq<Entry>, b: seq<Entry>, k: Key)
    ensures Without(a + b, k) == Without(a, k) + Without(b, k)
  {
    if a == [] {
      assert a + b == b;
    } else {
      assert (a + b)[1..] == a[1..] + b;
      WithoutConcat(a[1..], b, k);
    }
  }

  lemma {:induction false} FilterAllLess(s: seq<Entry>, k: Key)
    requires AllLess(s, k)
    ensures Below(s, k) == s && Above(s, k) == []
  {
    if s != [] {
      FilterAllLess(s[1..], k);
    }
  }

  lemma {:induction false} FilterAllGreater(s: seq<Entry>, k: Key)
    requires AllGreater(k, s)
    ensures Below(s, k) == [] && Above(s, k) == s
  {
    if s != [] {
      FilterAllGreater(s[1..], k);
    }
  }

  lemma {:induction false} WithoutAbsent(s: seq<Entry>, k: Key)
    requires !HasKey(s, k)
    ensures Without(s, k) == s
  {
    if s != [] {
      assert !HasKey(s[1..], k) by {
        forall i | 0 <= i < |s[1..]| ensures s[1..][i].key != k {
          assert s[1..][i] == s[i + 1];
        }
      }
      WithoutAbsent(s[1..], k);
    }
  }

  /** In a sorted sequence a key names one position, and Without takes exactly that entry out. */
  lemma {:induction false} WithoutTakesOne(s: seq<Entry>, i: nat)
    requires Sorted(s) && i < |s|
    ensures Without(s, s[i].key) == s[..i] + s[i + 1..]
  {
    assert s == s[..i] + [s[i]] + s[i + 1..];
    SortedSplit(s[..i], s[i], s[i + 1..]);
    WithoutSplit(s[..i], s[i], s[i + 1..], s[i].key);
  }

  /** An entry under a new key goes to the one position that keeps the sequence sorted. */
  lemma {:induction false} WithEntryPosition(s: seq<Entry>, e: Entry) returns (i: nat)
    requires Sorted(s) && !HasKey(s, e.key)
    ensures i <= |s| && WithEntry(s, e) == s[..i] + [e] + s[i..]
    ensures AllLess(s[..i], e.key) && AllGreater(e.key, s[i..])
    ensures Sorted(WithEntry(s, e))
  {
    i := 0;
    while i < |s| && Less(s[i].key, e.key)
      invariant i <= |s| && AllLess(s[..i], e.key)
    {
      i := i + 1;
    }
    assert AllGreater(e.key, s[i..]) by {
      forall j | 0 <= j < |s[i..]| ensures Less(e.key, s[i..][j].key) {
        assert s[i].key != e.key && Less(e.key, s[i].key);
        assert j == 0 || Less(s[i].key, s[i + j].key);
      }
    }
    FilterAtPosition(s, e.key, i);
    SortedJoin(s[..i], e, s[i..]);
  }

  lemma {:induction false} FilterAtPosition(s: seq<Entry>, k: Key, i: nat)
    requires i <= |s| && AllLess(s[..i], k) && AllGreater(k, s[i..])
    ensures Below(s, k) == s[..i] && Above(s, k) == s[i..]
  {
    assert s == s[..i] + s[i..];
    BelowConcat(s[..i], s[i..], k);
    AboveConcat(s[..i], s[i..], k);
    FilterAllLess(s[..i], k);
    FilterAllGreater(s[i..], k);
  }

  lemma {:induction false} SortedJoin(a: seq<Entry>, e: Entry, b: seq<Entry>)
    requires Sorted(a) && Sorted(b) && AllLess(a, e.key) && AllGreater(e.key, b)
    ensures Sorted(a + [e] + b)
  {
  }

  // ----- trees -----

  function Inorder(t: Tree): (s: seq<Entry>) {
    match t
    case Leaf => []
    case Node(l, k, o, _, r) => Inorder(l) + [Entry(k, o)] + Inorder(r)
  }

  function OrdersOf(s: seq<Entry>): (r: seq<Order>)
    ensures |r| == |s| && forall i :: 0 <= i < |s| ==> r[i] == s[i].order
  {
    seq(|s|, i requires 0 <= i < |s| => s[i].order)
  }

  /** The orders of a tree in ascending order of their keys. */
  function TreeOrders(t: Tree): seq<Order> {
    OrdersOf(Inorder(t))
  }

  lemma {:induction false} TreeOrdersUnfold(t: Tree)
    requires t.Node?
    ensures TreeOrders(t) == TreeOrders(t.left) + [t.order] + TreeOrders(t.right)
  {
  }

  ghost predicate Ordered(t: Tree) {
    Sorted(Inorder(t))
  }

  function Max(a: int, b: int): int {
    if a > b then a else b
  }

  /** The stored height; an empty tree counts as 0. */
  function Height(t: Tree): int {
    if t.Leaf? then 0 else t.height
  }

  function Balance(t: Tree): int {
    if t.Leaf? then 0 else Height(t.left) - Height(t.right)
  }

  /** Stored heights are exact and every node's subtrees differ in height by at most one. */
  ghost predicate Balanced(t: Tree) {
    t.Node? ==>
      && Balanced(t.left) && Balanced(t.right)
      && t.height == Max(Height(t.left), Height(t.right)) + 1
      && -1 <= Balance(t) <= 1
  }

  ghost predicate Avl(t: Tree) {
    Ordered(t) && Balanced(t)
  }

  function UpdateHeight(t: Tree): Tree {
    if t.Leaf? then t
    else Node(t.left, t.key, t.order, Max(Height(t.left), Height(t.right)) + 1, t.right)
  }

  function RotateRight(t: Tree): (r: Tree)
    requires t.Node? && t.left.Node?
    ensures r.Node?
  {
    var x := t.left;
    var y := UpdateHeight(Node(x.right, t.key, t.order, t.height, t.right));
    UpdateHeight(Node(x.left, x.key, x.order, x.height, y))
  }

  function RotateLeft(t: Tree): (r: Tree)
    requires t.Node? && t.right.Node?
    ensures r.Node?
  {
    var y := t.right;
    var x := UpdateHeight(Node(t.left, t.key, t.order, t.height, y.left));
    UpdateHeight(Node(x, y.key, y.order, y.height, y.right))
  }

  /** The four rotation cases after an insertion, chosen by comparing the new key with the child's key. */
  function FixInsert(t: Tree, k: Key): (r: Tree)
    requires t.Node?
    ensures r.Node?
  {
    if Balance(t) > 1 && t.left.Node? && Less(k, t.left.key) then
      RotateRight(t)
    else if Balance(t) < -1 && t.right.Node? && Less(t.right.key, k) then
      RotateLeft(t)
    else if Balance(t) > 1 && t.left.Node? && Less(t.left.key, k) && t.left.right.Node? then
      RotateRight(t.(left := RotateLeft(t.left)))
    else if Balance(t) < -1 && t.right.Node? && Less(k, t.right.key) && t.right.left.Node? then
      RotateLeft(t.(right := RotateRight(t.right)))
    else t
  }

  function Insert(t: Tree, k: Key, o: Order): (r: Tree)
    ensures r.Node?
  {
    match t
    case Leaf => Node(Leaf, k, o, 1, Leaf)
    case Node(l, k0, _, _, rt) =>
      if Less(k, k0) then FixInsert(UpdateHeight(t.(left := Insert(l, k, o))), k)
      else if Less(k0, k) then FixInsert(UpdateHeight(t.(right := Insert(rt, k, o))), k)
      else t
  }

  /** The four rotation cases after a deletion, chosen by the balance of the taller child. */
  function FixDelete(t: Tree): (r: Tree)
    requires t.Node?
    ensures r.Node?
  {
    if Balance(t) > 1 && t.left.Node? && Balance(t.left) >= 0 then
      RotateRight(t)
    else if Balance(t) > 1 && t.left.Node? && t.left.right.Node? then
      RotateRight(t.(left := RotateLeft(t.left)))
    else if Balance(t) < -1 && t.right.Node? && Balance(t.right) <= 0 then
      RotateLeft(t)
    else if Balance(t) < -1 && t.right.Node? && t.right.left.Node? then
      RotateLeft(t.(right := RotateRight(t.right)))
    else t
  }

  function Leftmost(t: Tree): (e: Entry)
    requires t.Node?
  {
    if t.left.Node? then Leftmost(t.left) else Entry(t.key, t.order)
  }

  function Rightmost(t: Tree): (e: Entry)
    requires t.Node?
  {
    if t.right.Node? then Rightmost(t.right) else Entry(t.key, t.order)
  }

  /** Deletion before its common ending: the key is gone, the root's height and balance are still to be mended.
      A root with one child becomes that child; a root with two takes over its successor's data. */
  function DeleteStep(t: Tree, k: Key): Tree
    requires t.Node?
    decreases t, 0
  {
    if Less(k, t.key) then t.(left := Delete(t.left, k))
    else if Less(t.key, k) then t.(right := Delete(t.right, k))
    else if t.left.Leaf? || t.right.Leaf? then (if t.left.Node? then t.left else t.right)
    else
      var e := Leftmost(t.right);
      t.(key := e.key, order := e.order, right := Delete(t.right, e.key))
  }

  function Delete(t: Tree, k: Key): Tree
    decreases t, 1
  {
    if t.Leaf? then Leaf
    else
      var u := DeleteStep(t, k);
      if u.Leaf? then Leaf else FixDelete(UpdateHeight(u))
  }

  // ----- in-order meaning -----

  lemma {:induction false} RotateRightInorder(t: Tree)
    requires t.Node? && t.left.Node?
    ensures Inorder(RotateRight(t)) == Inorder(t)
  {
  }

  lemma {:induction false} RotateLeftInorder(t: Tree)
    requires t.Node? && t.right.Node?
    ensures Inorder(RotateLeft(t)) == Inorder(t)
  {
  }

  lemma {:induction false} DoubleRotationInorder(t: Tree)
    requires t.Node?
    ensures t.left.Node? && t.left.right.Node? ==>
              Inorder(RotateRight(t.(left := RotateLeft(t.left)))) == Inorder(t)
    ensures t.right.Node? && t.right.left.Node? ==>
              Inorder(RotateLeft(t.(right := RotateRight(t.right)))) == Inorder(t)
  {
    if t.left.Node? && t.left.right.Node? {
      RotateLeftInorder(t.left);
      RotateRightInorder(t.(left := RotateLeft(t.left)));
    }
    if t.right.Node? && t.right.left.Node? {
      RotateRightInorder(t.right);
      RotateLeftInorder(t.(right := RotateRight(t.right)));
    }
  }

  /** Rebalancing moves nodes, never entries. */
  lemma {:induction false} FixInorder(t: Tree, k: Key)
    requires t.Node?
    ensures Inorder(FixInsert(t, k)) == Inorder(t)
    ensures Inorder(FixDelete(t)) == Inorder(t)
  {
    DoubleRotationInorder(t);
    if t.left.Node? {
      RotateRightInorder(t);
    }
    if t.right.Node? {
      RotateLeftInorder(t);
    }
  }

  lemma {:induction false} LeftmostIsFirst(t: Tree)
    requires t.Node?
    ensures Inorder(t) != [] && Inorder(t)[0] == Leftmost(t)
  {
    if t.left.Node? {
      LeftmostIsFirst(t.left);
    }
  }

  lemma {:induction false} RightmostIsLast(t: Tree)
    requires t.Node?
    ensures Inorder(t) != [] && Inorder(t)[|Inorder(t)| - 1] == Rightmost(t)
  {
    if t.right.Node? {
      RightmostIsLast(t.right);
    }
  }

  lemma {:induction false} SortedSplit(a: seq<Entry>, e: Entry, b: seq<Entry>)
    requires Sorted(a + [e] + b)
    ensures Sorted(a) && Sorted(b) && AllLess(a, e.key) && AllGreater(e.key, b)
  {
    var s := a + [e] + b;
    assert forall i :: 0 <= i < |a| ==> s[i] == a[i];
    assert s[|a|] == e;
    assert forall i :: 0 <= i < |b| ==> s[|a| + 1 + i] == b[i];
    forall i | 0 <= i < |b| ensures Less(e.key, b[i].key) {
      assert Less(s[|a|].key, s[|a| + 1 + i].key);
    }
    forall i, j | 0 <= i < j < |b| ensures Less(b[i].key, b[j].key) {
      assert Less(s[|a| + 1 + i].key, s[|a| + 1 + j].key);
    }
  }

  lemma {:induction false} OrderedParts(t: Tree)
    requires Ordered(t) && t.Node?
    ensures Ordered(t.left) && Ordered(t.right)
    ensures AllLess(Inorder(t.left), t.key) && AllGreater(t.key, Inorder(t.right))
  {
    SortedSplit(Inorder(t.left), Entry(t.key, t.order), Inorder(t.right));
  }

  /** How sorted insertion splits around a middle entry. */
  lemma {:induction false} WithEntrySplit(a: seq<Entry>, m: Entry, b: seq<Entry>, e: Entry)
    requires AllLess(a, m.key) && AllGreater(m.key, b)
    ensures Less(e.key, m.key) ==> WithEntry(a + [m] + b, e) == WithEntry(a, e) + [m] + b
    ensures Less(m.key, e.key) ==> WithEntry(a + [m] + b, e) == a + [m] + WithEntry(b, e)
    ensures e.key == m.key ==> WithEntry(a + [m] + b, e) == a + [m] + b
  {
    HasKeySplit(a, m, b, e.key);
    if Less(e.key, m.key) {
      WithEntryLeft(a, m, b, e);
    } else if Less(m.key, e.key) {
      WithEntryRight(a, m, b, e);
    }
  }

  lemma {:induction false} Regroup(a: seq<Entry>, b: seq<Entry>, c: seq<Entry>, d: seq<Entry>, e: seq<Entry>)
    ensures a + b + c + d + e == a + b + (c + d + e)
    ensures a + [] + [] == a && [] + [] + e == e
  {
  }

  lemma {:induction false} FilterSplit(a: seq<Entry>, m: Entry, b: seq<Entry>, k: Key)
    ensures Below(a + [m] + b, k) == Below(a, k) + Below([m], k) + Below(b, k)
    ensures Above(a + [m] + b, k) == Above(a, k) + Above([m], k) + Above(b, k)
  {
    BelowConcat(a + [m], b, k);
    BelowConcat(a, [m], k);
    AboveConcat(a + [m], b, k);
    AboveConcat(a, [m], k);
  }

  lemma {:induction false} WithEntryLeft(a: seq<Entry>, m: Entry, b: seq<Entry>, e: Entry)
    requires AllGreater(m.key, b) && Less(e.key, m.key)
    ensures WithEntry(a + [m] + b, e) == WithEntry(a, e) + [m] + b
  {
    HasKeySplit(a, m, b, e.key);
    FilterSplit(a, m, b, e.key);
    FilterAllGreater(b, e.key);
    FilterAllGreater([m], e.key);
    assert !HasKey(b, e.key);
    Regroup(Below(a, e.key), [e], Above(a, e.key), [m], b);
  }

  lemma {:induction false} WithEntryRight(a: seq<Entry>, m: Entry, b: seq<Entry>, e: Entry)
    requires AllLess(a, m.key) && Less(m.key, e.key)
    ensures WithEntry(a + [m] + b, e) == a + [m] + WithEntry(b, e)
  {
    HasKeySplit(a, m, b, e.key);
    FilterSplit(a, m, b, e.key);
    FilterAllLess(a, e.key);
    FilterAllLess([m], e.key);
    assert !HasKey(a, e.key);
    Regroup(a, [m], Below(b, e.key), [e], Above(b, e.key));
  }

  lemma {:induction false} HasKeySplit(a: seq<Entry>, m: Entry, b: seq<Entry>, k: Key)
    ensures HasKey(a + [m] + b, k) <==> HasKey(a, k) || m.key == k || HasKey(b, k)
  {
    var s := a + [m] + b;
    assert s[|a|] == m;
    assert forall i :: 0 <= i < |a| ==> s[i] == a[i];
    assert forall i :: 0 <= i < |b| ==> s[|a| + 1 + i] == b[i];
    if i :| 0 <= i < |s| && s[i].key == k {
      if i > |a| {
        assert s[i] == b[i - |a| - 1];
      }
    }
  }

  /** Insertion puts the order at its sorted position, or changes nothing when the key is taken. */
  lemma {:induction false} InsertInorder(t: Tree, k: Key, o: Order)
    requires Ordered(t)
    ensures Inorder(Insert(t, k, o)) == WithEntry(Inorder(t), Entry(k, o))
    ensures HasKey(Inorder(t), k) ==> Inorder(Insert(t, k, o)) == Inorder(t)
    ensures Ordered(Insert(t, k, o))
  {
    var e := Entry(k, o);
    if t.Node? {
      OrderedParts(t);
      WithEntrySplit(Inorder(t.left), Entry(t.key, t.order), Inorder(t.right), e);
      if Less(k, t.key) {
        InsertInorder(t.left, k, o);
        FixInorder(UpdateHeight(t.(left := Insert(t.left, k, o))), k);
      } else if Less(t.key, k) {
        InsertInorder(t.right, k, o);
        FixInorder(UpdateHeight(t.(right := Insert(t.right, k, o))), k);
      }
    }
    if !HasKey(Inorder(t), k) {
      var _ := WithEntryPosition(Inorder(t), e);
    }
  }

  lemma {:induction false} WithoutSplit(a: seq<Entry>, m: Entry, b: seq<Entry>, k: Key)
    requires AllLess(a, m.key) && AllGreater(m.key, b)
    ensures Less(k, m.key) ==> Without(a + [m] + b, k) == Without(a, k) + [m] + b
    ensures Less(m.key, k) ==> Without(a + [m] + b, k) == a + [m] + Without(b, k)
    ensures k == m.key ==> Without(a + [m] + b, k) == a + b
  {
    WithoutConcat(a + [m], b, k);
    WithoutConcat(a, [m], k);
    var w := if m.key == k then [] else [m];
    assert Without([m], k) == w;
    if !Less(m.key, k) {
      WithoutAbsent(b, k);
    }
    if !Less(k, m.key) {
      WithoutAbsent(a, k);
    }
    if k == m.key {
      assert a + [] == a;
    }
  }

  /** Deletion takes out exactly the entry under the key, or nothing. */
  lemma {:induction false} DeleteInorder(t: Tree, k: Key)
    requires Ordered(t)
    ensures Inorder(Delete(t, k)) == Without(Inorder(t), k)
    ensures Ordered(Delete(t, k))
    decreases t, 1
  {
    WithoutSorted(Inorder(t), k);
    if t.Node? {
      DeleteStepInorder(t, k);
      var u := DeleteStep(t, k);
      if u.Node? {
        FixInorder(UpdateHeight(u), k);
      }
    }
  }

  lemma {:induction false} DeleteStepInorder(t: Tree, k: Key)
    requires Ordered(t) && t.Node?
    ensures Inorder(DeleteStep(t, k)) == Without(Inorder(t), k)
    decreases t, 0
  {
    OrderedParts(t);
    WithoutSplit(Inorder(t.left), Entry(t.key, t.order), Inorder(t.right), k);
    if Less(k, t.key) {
      DeleteInorder(t.left, k);
    } else if Less(t.key, k) {
      DeleteInorder(t.right, k);
    } else if t.left.Node? && t.right.Node? {
      DeleteInorder(t.right, Leftmost(t.right).key);
      SuccessorInorder(t);
    }
  }

  /** Two children: the successor's data replaces the root's, and the successor goes from the right. */
  lemma {:induction false} SuccessorInorder(t: Tree)
    requires t.Node? && Ordered(t.right) && t.left.Node? && t.right.Node?
    requires Inorder(Delete(t.right, Leftmost(t.right).key)) == Without(Inorder(t.right), Leftmost(t.right).key)
    ensures Inorder(DeleteStep(t, t.key)) == Inorder(t.left) + Inorder(t.right)
  {
    var l, r := Inorder(t.left), Inorder(t.right);
    var e := Leftmost(t.right);
    LeftmostIsFirst(t.right);
    WithoutTakesOne(r, 0);
    assert r == [e] + r[1..];
    var rest := Delete(t.right, e.key);
    assert Inorder(rest) == r[1..];
    assert DeleteStep(t, t.key) == Node(t.left, e.key, e.order, t.height, rest);
    assert l + [e] + r[1..] == l + r;
  }

  lemma {:induction false} WithoutSorted(s: seq<Entry>, k: Key)
    requires Sorted(s)
    ensures Sorted(Without(s, k))
  {
    if i :| 0 <= i < |s| && s[i].key == k {
      WithoutTakesOne(s, i);
    } else {
      WithoutAbsent(s, k);
    }
  }

  // ----- balance -----

  /** Balanced subtrees and an exact height at the root, whose own balance may be off by one. */
  ghost predicate AlmostBalanced(t: Tree) {
    && t.Node? && Balanced(t.left) && Balanced(t.right)
    && t.height == Max(Height(t.left), Height(t.right)) + 1
    && -2 <= Balance(t) <= 2
  }

  lemma {:induction false} BalancedHeight(t: Tree)
    requires Balanced(t)
    ensures Height(t) >= 0 && (Height(t) == 0 <==> t.Leaf?)
  {
    if t.Node? {
      BalancedHeight(t.left);
      BalancedHeight(t.right);
    }
  }

  lemma {:induction false} FixLeftHigh(t: Tree)
    requires AlmostBalanced(t) && Balance(t) == 2
    ensures Balanced(FixDelete(t))
    ensures Height(t) - 1 <= Height(FixDelete(t)) <= Height(t)
  {
    BalancedHeight(t.left);
    BalancedHeight(t.right);
    var l := t.left;
    BalancedHeight(l.left);
    BalancedHeight(l.right);
    if Balance(l) < 0 {
      BalancedHeight(l.right.left);
      BalancedHeight(l.right.right);
    }
  }

  lemma {:induction false} FixRightHigh(t: Tree)
    requires AlmostBalanced(t) && Balance(t) == -2
    ensures Balanced(FixDelete(t))
    ensures Height(t) - 1 <= Height(FixDelete(t)) <= Height(t)
  {
    BalancedHeight(t.left);
    BalancedHeight(t.right);
    var r := t.right;
    BalancedHeight(r.left);
    BalancedHeight(r.right);
    if Balance(r) > 0 {
      BalancedHeight(r.left.left);
      BalancedHeight(r.left.right);
    }
  }

  lemma {:induction false} FixDeleteBalanced(t: Tree)
    requires AlmostBalanced(t)
    ensures Balanced(FixDelete(t))
    ensures Height(t) - 1 <= Height(FixDelete(t)) <= Height(t)
    ensures -1 <= Balance(t) <= 1 ==> FixDelete(t) == t
  {
    if Balance(t) == 2 {
      FixLeftHigh(t);
    } else if Balance(t) == -2 {
      FixRightHigh(t);
    }
  }

  /** An over-high child leans to the side where `k` belongs. */
  ghost predicate LeansTo(t: Tree, k: Key)
    requires t.Node?
  {
    && (Balance(t) > 1 ==>
          && t.left.Node? && k != t.left.key
          && Balance(t.left) == if Less(k, t.left.key) then 1 else -1)
    && (Balance(t) < -1 ==>
          && t.right.Node? && k != t.right.key
          && Balance(t.right) == if Less(k, t.right.key) then 1 else -1)
  }

  /** When the over-high child leans towards the new key, insertion makes the same choice as deletion. */
  lemma {:induction false} FixInsertIsFixDelete(t: Tree, k: Key)
    requires AlmostBalanced(t) && LeansTo(t, k)
    ensures FixInsert(t, k) == FixDelete(t)
    ensures Balance(t) == 2 || Balance(t) == -2 ==> Height(FixInsert(t, k)) == Height(t) - 1
  {
    BalancedHeight(t.left);
    BalancedHeight(t.right);
    if Balance(t) == 2 {
      BalancedHeight(t.left.left);
      BalancedHeight(t.left.right);
    } else if Balance(t) == -2 {
      BalancedHeight(t.right.left);
      BalancedHeight(t.right.right);
    }
  }

  /** Insertion keeps exact heights and balance and grows the tree by at most one level. */
  lemma {:induction false} InsertBalanced(t: Tree, k: Key, o: Order)
    requires Balanced(t)
    ensures Balanced(Insert(t, k, o))
    ensures Height(t) <= Height(Insert(t, k, o)) <= Height(t) + 1
    // A tree that grew kept its root and leans towards the new key.
    ensures t.Node? && Height(Insert(t, k, o)) == Height(t) + 1 ==>
              && k != t.key && Insert(t, k, o).key == t.key
              && Balance(Insert(t, k, o)) == if Less(k, t.key) then 1 else -1
  {
    if t.Node? {
      BalancedHeight(t.left);
      BalancedHeight(t.right);
      if Less(k, t.key) {
        InsertBalanced(t.left, k, o);
        var u := UpdateHeight(t.(left := Insert(t.left, k, o)));
        FixInsertIsFixDelete(u, k);
        FixDeleteBalanced(u);
      } else if Less(t.key, k) {
        InsertBalanced(t.right, k, o);
        var u := UpdateHeight(t.(right := Insert(t.right, k, o)));
        FixInsertIsFixDelete(u, k);
        FixDeleteBalanced(u);
      }
    }
  }

  /** What insertion hands to its rebalancing step. */
  lemma {:induction false} InsertSteps(t: Tree, k: Key, o: Order)
    requires Balanced(t) && t.Node?
    ensures Less(k, t.key) ==>
              var u := UpdateHeight(t.(left := Insert(t.left, k, o)));
              AlmostBalanced(u) && LeansTo(u, k) && Height(t.left) <= Height(t) - 1
    ensures Less(t.key, k) ==>
              var u := UpdateHeight(t.(right := Insert(t.right, k, o)));
              AlmostBalanced(u) && LeansTo(u, k) && Height(t.right) <= Height(t) - 1
  {
    BalancedHeight(t.left);
    BalancedHeight(t.right);
    InsertBalanced(t.left, k, o);
    InsertBalanced(t.right, k, o);
  }

  /** Deletion keeps exact heights and balance and lowers the tree by at most one level. */
  lemma {:induction false} DeleteBalanced(t: Tree, k: Key)
    requires Balanced(t)
    ensures Balanced(Delete(t, k))
    ensures Height(t) - 1 <= Height(Delete(t, k)) <= Height(t)
    decreases t, 1
  {
    if t.Node? {
      DeleteSteps(t, k);
      var u := DeleteStep(t, k);
      if u.Node? {
        FixDeleteBalanced(UpdateHeight(u));
      }
    }
  }

  /** What deletion hands to its rebalancing step. */
  lemma {:induction false} DeleteSteps(t: Tree, k: Key)
    requires Balanced(t) && t.Node?
    ensures 0 <= Height(t.left) <= Height(t) - 1 && 0 <= Height(t.right) <= Height(t) - 1
    ensures var u := DeleteStep(t, k);
            if u.Leaf? then Height(t) == 1
            else AlmostBalanced(UpdateHeight(u)) && Height(t) - 1 <= Height(UpdateHeight(u)) <= Height(t)
    ensures var u := DeleteStep(t, k);
            u.Node? && Height(UpdateHeight(u)) == Height(t) - 1 ==> -1 <= Balance(u) <= 1
    decreases t, 0
  {
    BalancedHeight(t.left);
    BalancedHeight(t.right);
    if Less(k, t.key) {
      DeleteBalanced(t.left, k);
    } else if Less(t.key, k) {
      DeleteBalanced(t.right, k);
    } else if t.left.Node? && t.right.Node? {
      DeleteBalanced(t.right, Leftmost(t.right).key);
    }
  }

  // ----- operations that find nothing to do -----

  /** Inserting under a taken key leaves the whole tree as it was, shape and heights included. */
  lemma {:induction false} InsertTaken(t: Tree, k: Key, o: Order)
    requires Avl(t) && HasKey(Inorder(t), k)
    ensures Insert(t, k, o) == t
  {
    OrderedParts(t);
    HasKeySplit(Inorder(t.left), Entry(t.key, t.order), Inorder(t.right), k);
    if Less(k, t.key) {
      InsertTaken(t.left, k, o);
    } else if Less(t.key, k) {
      InsertTaken(t.right, k, o);
    }
  }

  /** Deleting an absent key leaves the whole tree as it was. */
  lemma {:induction false} DeleteAbsent(t: Tree, k: Key)
    requires Avl(t) && !HasKey(Inorder(t), k)
    ensures Delete(t, k) == t
  {
    if t.Node? {
      OrderedParts(t);
      HasKeySplit(Inorder(t.left), Entry(t.key, t.order), Inorder(t.right), k);
      if Less(k, t.key) {
        DeleteAbsent(t.left, k);
      } else {
        DeleteAbsent(t.right, k);
      }
    }
  }

  lemma {:induction false} EntryCount(s: seq<Entry>, e: Entry)
    requires Sorted(s)
    ensures |WithEntry(s, e)| == |s| + if HasKey(s, e.key) then 0 else 1
  {
    if !HasKey(s, e.key) {
      var n := WithEntryPosition(s, e);
    }
  }

  lemma {:induction false} RemovalCount(s: seq<Entry>, k: Key)
    requires Sorted(s)
    ensures |Without(s, k)| == |s| - if HasKey(s, k) then 1 else 0
  {
    if i :| 0 <= i < |s| && s[i].key == k {
      WithoutTakesOne(s, i);
    } else {
      WithoutAbsent(s, k);
    }
  }

  // ----- height -----

  function Fib(n: nat): nat {
    if n < 2 then n else Fib(n - 1) + Fib(n - 2)
  }

  function Pow2(n: nat): nat {
    if n == 0 then 1 else 2 * Pow2(n - 1)
  }

  lemma {:induction false} FibMonotone(m: nat, n: nat)
    requires m <= n
    ensures Fib(m) <= Fib(n)
    decreases n
  {
    if m < n {
      FibMonotone(m, n - 1);
    }
  }

  lemma {:induction false} FibExponential(h: nat)
    ensures Fib(h + 2) >= Pow2(h / 2)
  {
    if h >= 2 {
      FibExponential(h - 2);
      FibMonotone(h, h + 1);
    }
  }

  /** A balanced tree of height h holds at least Fib(h + 2) - 1 entries. */
  lemma {:induction false} FibonacciSize(t: Tree)
    requires Balanced(t)
    ensures Height(t) >= 0 && |Inorder(t)| + 1 >= Fib(Height(t) + 2)
  {
    BalancedHeight(t);
    if t.Node? {
      FibonacciSize(t.left);
      FibonacciSize(t.right);
      var h := Height(t);
      if Height(t.left) == h - 1 {
        FibMonotone(h, Height(t.right) + 2);
      } else {
        FibMonotone(h, Height(t.left) + 2);
      }
    }
  }

  /** So the height is at most twice the binary logarithm of the size, rounded up. */
  lemma {:induction false} LogarithmicHeight(t: Tree)
    requires Balanced(t)
    ensures Height(t) >= 0 && Pow2(Height(t) / 2) <= |Inorder(t)| + 1
  {
    FibonacciSize(t);
    FibExponential(Height(t));
  }

  lemma {:induction false} InsertAvl(t: Tree, k: Key, o: Order)
    requires Avl(t)
    ensures Avl(Insert(t, k, o))
  {
    InsertInorder(t, k, o);
    InsertBalanced(t, k, o);
  }

  lemma {:induction false} DeleteAvl(t: Tree, k: Key)
    requires Avl(t)
    ensures Avl(Delete(t, k))
  {
    DeleteInorder(t, k);
    DeleteBalanced(t, k);
  }
}
