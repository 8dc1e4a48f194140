/** An order book as a value: two AVL trees, what is left of each order, and the trades so far.

    MatchTrees follows the matching loop of src/trading_engine/order_book.c on trees and is proved to
    do what MatchLists does on their in-order sequences. Runs of adds, matches and cancels follow. */
module BookModel {
  import opened Orders
  import opened AvlSpec
  import opened Matching
  import opened DeadOrders
  import opened Clearing

  datatype Option<T> = None | Some(value: T)

  datatype Book = Book(buys: Tree, sells: Tree, rem: Remaining, canceled: set<Order>, log: seq<Trade>)

  const EMPTY_BOOK := Book(Leaf, Leaf, map[], {}, [])

  /** Entries are filed under their order's own key and on the side given. */
  ghost predicate Filed(s: seq<Entry>, isBuy: bool, rem: Remaining) {
    forall i :: 0 <= i < |s| ==> s[i].key == s[i].order.SortKey() && s[i].order.isBuy == isBuy && s[i].order in rem
  }

  ghost predicate WellFormed(bk: Book) {
    && Avl(bk.buys) && Avl(bk.sells)
    && Filed(Inorder(bk.buys), true, bk.rem) && Filed(Inorder(bk.sells), false, bk.rem)
  }

  /** The book as the two plain sequences of the reference matcher. */
  function PoolOf(bk: Book): Pool {
    Pool(TreeOrders(bk.buys), TreeOrders(bk.sells), bk.rem)
  }

  lemma {:induction false} PoolFacts(bk: Book)
    requires WellFormed(bk)
    ensures var p := PoolOf(bk);
            WellSided(p) && Ascending(p.bids) && Ascending(p.asks)
  {
  }

  // ----- matching -----

  predicate TreesCanMatch(bk: Book)
    requires WellFormed(bk)
  {
    && bk.buys.Node? && bk.sells.Node?
    && (BestOrders(bk);
        MatchPossible(Rightmost(bk.buys).order, Leftmost(bk.sells).order, bk.rem, bk.canceled))
  }

  lemma {:induction false} BestOrders(bk: Book)
    requires WellFormed(bk) && bk.buys.Node? && bk.sells.Node?
    ensures var p, b, a := PoolOf(bk), Rightmost(bk.buys), Leftmost(bk.sells);
            && p.bids != [] && p.asks != [] && b.order == BestBid(p) && a.order == BestAsk(p)
            && b.order in bk.rem && a.order in bk.rem
            && b.key == b.order.SortKey() && a.key == a.order.SortKey()
  {
    RightmostIsLast(bk.buys);
    LeftmostIsFirst(bk.sells);
  }

  lemma {:induction false} CanMatchAgrees(bk: Book)
    requires WellFormed(bk)
    ensures WellSided(PoolOf(bk)) && (TreesCanMatch(bk) <==> CanMatch(PoolOf(bk), bk.canceled))
  {
    PoolFacts(bk);
    if bk.buys.Node? && bk.sells.Node? {
      BestOrders(bk);
    }
  }

  /** One turn of the matching loop. */
  function TreeRound(bk: Book): Book
    requires WellFormed(bk) && TreesCanMatch(bk)
  {
    BestOrders(bk);
    var b, a := Rightmost(bk.buys).order, Leftmost(bk.sells).order;
    var rem := AfterMatch(b, a, bk.rem);
    Book(if rem[b] == 0 then Delete(bk.buys, b.SortKey()) else bk.buys,
         if rem[a] == 0 then Delete(bk.sells, a.SortKey()) else bk.sells,
         rem, bk.canceled, bk.log + [TradeOf(b, a, bk.rem)])
  }

  /** Deleting the greatest key drops the last order, deleting the least key the first. */
  lemma {:induction false} DeleteBest(t: Tree)
    requires Avl(t) && t.Node?
    ensures Inorder(Delete(t, Rightmost(t).key)) == Inorder(t)[..|Inorder(t)| - 1]
    ensures Inorder(Delete(t, Leftmost(t).key)) == Inorder(t)[1..]
    ensures Avl(Delete(t, Rightmost(t).key)) && Avl(Delete(t, Leftmost(t).key))
  {
    var s := Inorder(t);
    RightmostIsLast(t);
    LeftmostIsFirst(t);
    DeleteAvl(t, Rightmost(t).key);
    DeleteAvl(t, Leftmost(t).key);
    DeleteInorder(t, Rightmost(t).key);
    DeleteInorder(t, Leftmost(t).key);
    WithoutTakesOne(s, |s| - 1);
    WithoutTakesOne(s, 0);
    assert s[..|s| - 1] + s[|s|..] == s[..|s| - 1];
    assert s[..0] + s[1..] == s[1..];
  }

  /** A turn on the trees is a round on the sequences. */
  lemma {:induction false} TreeRoundRefines(bk: Book)
    requires WellFormed(bk) && TreesCanMatch(bk)
    ensures WellFormed(TreeRound(bk)) && TreeRound(bk).canceled == bk.canceled
    ensures var p := PoolOf(bk);
            && WellSided(p) && CanMatch(p, bk.canceled)
            && PoolOf(TreeRound(bk)) == Round(p, bk.canceled)
            && TreeRound(bk).log == bk.log + [RoundTrade(p, bk.canceled)]
  {
    PoolFacts(bk);
    BestOrders(bk);
    DeleteBest(bk.buys);
    DeleteBest(bk.sells);
    var p, r := PoolOf(bk), TreeRound(bk);
    assert PoolOf(r).bids == Round(p, bk.canceled).bids;
    assert PoolOf(r).asks == Round(p, bk.canceled).asks;
  }

  /** The best pair are two orders, one a bid and one an ask. */
  lemma {:induction false} PairSides(bk: Book)
    requires WellFormed(bk) && bk.buys.Node? && bk.sells.Node?
    ensures Rightmost(bk.buys).order.isBuy && !Leftmost(bk.sells).order.isBuy
  {
    RightmostIsLast(bk.buys);
    LeftmostIsFirst(bk.sells);
  }

  lemma {:induction false} RoundShrinks(bk: Book)
    requires WellFormed(bk) && TreesCanMatch(bk)
    ensures var r := TreeRound(bk);
            |Inorder(r.buys)| + |Inorder(r.sells)| < |Inorder(bk.buys)| + |Inorder(bk.sells)|
  {
    TreeRoundRefines(bk);
    var p, q := PoolOf(bk), PoolOf(TreeRound(bk));
    assert |q.bids| + |q.asks| < |p.bids| + |p.asks|;
  }

  /** The matching loop. */
  function MatchTrees(bk: Book): Book
    requires WellFormed(bk)
    decreases |Inorder(bk.buys)| + |Inorder(bk.sells)|
  {
    if !TreesCanMatch(bk) then bk
    else
      TreeRoundRefines(bk);
      MatchTrees(TreeRound(bk))
  }

  lemma {:induction false} LogUnfoldsFrom(log: seq<Trade>, p: Pool, canceled: set<Order>)
    requires WellSided(p) && CanMatch(p, canceled)
    ensures var out, rest := MatchLists(p, canceled), MatchLists(Round(p, canceled), canceled);
            out.pool == rest.pool && log + out.log == log + [RoundTrade(p, canceled)] + rest.log
  {
  }

  /** Matching on the trees gives the trades, the residual orders and the quantities of the reference matcher. */
  lemma {:induction false} MatchTreesRefines(bk: Book)
    requires WellFormed(bk)
    ensures WellFormed(MatchTrees(bk)) && WellSided(PoolOf(bk))
    ensures var bk', out := MatchTrees(bk), MatchLists(PoolOf(bk), bk.canceled);
            PoolOf(bk') == out.pool && bk'.log == bk.log + out.log && bk'.canceled == bk.canceled
    decreases |Inorder(bk.buys)| + |Inorder(bk.sells)|
  {
    CanMatchAgrees(bk);
    if TreesCanMatch(bk) {
      TreeRoundRefines(bk);
      MatchTreesRefines(TreeRound(bk));
      LogUnfoldsFrom(bk.log, PoolOf(bk), bk.canceled);
    }
  }

  // ----- adding -----

  /** Files an order whose remaining quantity is `r` and whose cancellation mark is `c`. */
  function AddOrder(bk: Book, o: Order, r: int, c: bool): Book {
    Book(if o.isBuy then Insert(bk.buys, o.SortKey(), o) else bk.buys,
         if o.isBuy then bk.sells else Insert(bk.sells, o.SortKey(), o),
         bk.rem[o := r],
         if c then bk.canceled + {o} else bk.canceled - {o},
         bk.log)
  }

  /** Whether the order would be filed; it is ignored when its side already has an order under its key. */
  ghost predicate Accepts(bk: Book, o: Order) {
    !HasKey(Inorder(if o.isBuy then bk.buys else bk.sells), o.SortKey())
  }

  lemma {:induction false} InsertFiled(t: Tree, o: Order, rem: Remaining, r: int)
    requires Avl(t) && Filed(Inorder(t), o.isBuy, rem)
    ensures Avl(Insert(t, o.SortKey(), o))
    ensures Filed(Inorder(Insert(t, o.SortKey(), o)), o.isBuy, rem[o := r])
  {
    InsertAvl(t, o.SortKey(), o);
    InsertInorder(t, o.SortKey(), o);
    var s, e := Inorder(t), Entry(o.SortKey(), o);
    if !HasKey(s, e.key) {
      var i := WithEntryPosition(s, e);
    }
  }

  lemma {:induction false} AddWellFormed(bk: Book, o: Order, r: int, c: bool)
    requires WellFormed(bk)
    ensures WellFormed(AddOrder(bk, o, r, c))
  {
    InsertFiled(if o.isBuy then bk.buys else bk.sells, o, bk.rem, r);
  }

  // ----- canceling -----

  /** The orders met by going right from the root. */
  function RightPath(t: Tree): seq<Order> {
    if t.Leaf? then [] else [t.order] + RightPath(t.right)
  }

  /** The order that a cancel request finds: under key agreement the search only ever goes right. */
  function CancelTarget(t: Tree, id: string): Option<Order> {
    if t.Leaf? then None
    else if t.order.orderId == id then Some(t.order)
    else CancelTarget(t.right, id)
  }

  function CancelOrder(bk: Book, id: string, isBuy: bool): Book {
    match CancelTarget(if isBuy then bk.buys else bk.sells, id)
    case None => bk
    case Some(o) => bk.(canceled := bk.canceled + {o})
  }

  /** A cancel finds an order exactly when the id occurs on the right-most path, and then the first such order. */
  lemma {:induction false} CancelCharacterised(t: Tree, id: string)
    ensures CancelTarget(t, id).None? <==> forall i :: 0 <= i < |RightPath(t)| ==> RightPath(t)[i].orderId != id
    ensures CancelTarget(t, id).Some? ==>
              exists i :: 0 <= i < |RightPath(t)| && RightPath(t)[i] == CancelTarget(t, id).value &&
                          RightPath(t)[i].orderId == id && forall j :: 0 <= j < i ==> RightPath(t)[j].orderId != id
  {
    if t.Node? {
      var path, rest := RightPath(t), RightPath(t.right);
      assert forall i :: 0 <= i < |rest| ==> path[i + 1] == rest[i];
      CancelCharacterised(t.right, id);
      if t.order.orderId == id {
        assert path[0].orderId == id;
      } else if CancelTarget(t, id).Some? {
        var i :| 0 <= i < |rest| && rest[i] == CancelTarget(t, id).value && rest[i].orderId == id &&
                 forall j :: 0 <= j < i ==> rest[j].orderId != id;
        assert path[i + 1].orderId == id && forall j :: 0 <= j < i + 1 ==> path[j].orderId != id;
      } else {
        forall i | 0 <= i < |path| ensures path[i].orderId != id {
          if i > 0 {
            assert path[i] == rest[i - 1] && RightPath(t.right)[i - 1].orderId != id;
          }
        }
      }
    }
  }

  /** The path holds orders of the tree, ends at the greatest key and is no longer than the tree is high. */
  lemma {:induction false} RightPathFacts(t: Tree)
    requires Balanced(t)
    ensures |RightPath(t)| <= Height(t)
    ensures forall i :: 0 <= i < |RightPath(t)| ==> RightPath(t)[i] in TreeOrders(t)
    ensures t.Node? ==> RightPath(t) != [] && RightPath(t)[|RightPath(t)| - 1] == Rightmost(t).order
  {
    if t.Node? {
      RightPathFacts(t.right);
      BalancedHeight(t.left);
      BalancedHeight(t.right);
      var s := Inorder(t);
      assert s[|Inorder(t.left)|].order == t.order;
      assert TreeOrders(t)[|Inorder(t.left)|] == t.order;
      forall i | 0 < i < |RightPath(t)| ensures RightPath(t)[i] in TreeOrders(t) {
        var o := RightPath(t.right)[i - 1];
        var k :| 0 <= k < |TreeOrders(t.right)| && TreeOrders(t.right)[k] == o;
        assert s[|Inorder(t.left)| + 1 + k].order == o;
        assert TreeOrders(t)[|Inorder(t.left)| + 1 + k] == o;
      }
    }
  }

  /** The id of the greatest order is always found; that of an order with an id of its own only on the path. */
  lemma {:induction false} CancelReaches(t: Tree, o: Order)
    requires Balanced(t) && o in TreeOrders(t)
    requires forall i :: 0 <= i < |TreeOrders(t)| ==> TreeOrders(t)[i].orderId == o.orderId ==> TreeOrders(t)[i] == o
    ensures CancelTarget(t, o.orderId) == Some(o) <==> o in RightPath(t)
    ensures CancelTarget(t, o.orderId) == None <==> o !in RightPath(t)
    ensures o == Rightmost(t).order ==> CancelTarget(t, o.orderId) == Some(o)
  {
    CancelCharacterised(t, o.orderId);
    RightPathFacts(t);
    var path := RightPath(t);
    if o in path {
      var i :| 0 <= i < |path| && path[i] == o;
    }
    if CancelTarget(t, o.orderId).Some? {
      var i :| 0 <= i < |path| && path[i] == CancelTarget(t, o.orderId).value && path[i].orderId == o.orderId;
      assert path[i] in TreeOrders(t);
    }
  }

  lemma {:induction false} RootFiled(t: Tree, isBuy: bool, rem: Remaining)
    requires t.Node? && Filed(Inorder(t), isBuy, rem)
    ensures t.key == t.order.SortKey() && t.order in rem && t.order.isBuy == isBuy
    ensures Filed(Inorder(t.left), isBuy, rem) && Filed(Inorder(t.right), isBuy, rem)
  {
    var s, n := Inorder(t), |Inorder(t.left)|;
    assert s[n] == Entry(t.key, t.order);
    assert forall i :: 0 <= i < n ==> s[i] == Inorder(t.left)[i];
    assert forall i :: 0 <= i < |Inorder(t.right)| ==> s[n + 1 + i] == Inorder(t.right)[i];
  }

  // ----- quantity at a price -----

  /** The remaining quantity of the orders at one price that are not canceled. */
  function QuantityAt(s: seq<Order>, price: real, rem: Remaining, canceled: set<Order>): int
    requires forall i :: 0 <= i < |s| ==> s[i] in rem
  {
    if s == [] then 0
    else (if s[0].price == price && s[0] !in canceled then rem[s[0]] else 0) + QuantityAt(s[1..], price, rem, canceled)
  }

  lemma {:induction false} QuantityAtConcat(a: seq<Order>, b: seq<Order>, price: real, rem: Remaining,
                                            canceled: set<Order>)
    requires forall i :: 0 <= i < |a| ==> a[i] in rem
    requires forall i :: 0 <= i < |b| ==> b[i] in rem
    ensures QuantityAt(a + b, price, rem, canceled) ==
            QuantityAt(a, price, rem, canceled) + QuantityAt(b, price, rem, canceled)
  {
    if a == [] {
      assert a + b == b;
    } else {
      assert (a + b)[1..] == a[1..] + b;
      QuantityAtConcat(a[1..], b, price, rem, canceled);
    }
  }

  // ----- runs -----

  datatype Op = Add(order: Order) | Match | Cancel(orderId: string, isBuy: bool)

  /** A new order comes in with its whole quantity and no mark; a known one as it stands. */
  function Step(bk: Book, op: Op): Book
    requires WellFormed(bk)
  {
    match op
    case Add(o) =>
      if o in bk.rem then AddOrder(bk, o, bk.rem[o], o in bk.canceled) else AddOrder(bk, o, o.quantity, false)
    case Match => MatchTrees(bk)
    case Cancel(id, isBuy) => CancelOrder(bk, id, isBuy)
  }

  /** Every operation keeps both trees balanced and ordered and every order filed under its key on its side. */
  lemma {:induction false} StepWellFormed(bk: Book, op: Op)
    requires WellFormed(bk)
    ensures WellFormed(Step(bk, op))
  {
    match op
    case Add(o) =>
      if o in bk.rem {
        AddWellFormed(bk, o, bk.rem[o], o in bk.canceled);
      } else {
        AddWellFormed(bk, o, o.quantity, false);
      }
    case Match => MatchTreesRefines(bk);
    case Cancel(id, isBuy) =>
  }

  function Run(bk: Book, ops: seq<Op>): (r: Book)
    requires WellFormed(bk)
    ensures WellFormed(r)
    decreases |ops|
  {
    if ops == [] then bk
    else
      StepWellFormed(bk, ops[0]);
      Run(Step(bk, ops[0]), ops[1..])
  }

  /** Every known order has traded exactly what it has lost, and every trade is between known orders, at a
      positive quantity and at the seller's price within the buyer's limit. */
  ghost predicate Ledger(bk: Book) {
    && (forall i :: 0 <= i < |bk.log| ==> Fair(bk.log[i]) && bk.log[i].buy in bk.rem && bk.log[i].sell in bk.rem)
    && (forall o :: o in bk.rem ==> Accounted(bk, o))
  }

  ghost predicate Accounted(bk: Book, o: Order)
    requires o in bk.rem
  {
    && bk.rem[o] == o.quantity - Traded(bk.log, o)
    && bk.rem[o] <= o.quantity
    && (o.quantity >= 0 ==> bk.rem[o] >= 0)
  }

  lemma {:induction false} MatchLedger(bk: Book)
    requires WellFormed(bk) && Ledger(bk)
    ensures Ledger(MatchTrees(bk)) && MatchTrees(bk).rem.Keys == bk.rem.Keys
  {
    var p, bk' := PoolOf(bk), MatchTrees(bk);
    MatchTreesRefines(bk);
    ResidualOrders(p, bk.canceled);
    var trades := MatchLists(p, bk.canceled).log;
    forall i | 0 <= i < |trades| ensures Fair(trades[i]) && trades[i].buy in bk'.rem && trades[i].sell in bk'.rem {
      TradesAreFair(p, bk.canceled, i);
    }
    assert bk'.log == bk.log + trades;
    forall o | o in bk'.rem ensures Accounted(bk', o) {
      MatchAccounted(bk, o);
    }
  }

  lemma {:induction false} MatchAccounted(bk: Book, o: Order)
    requires WellFormed(bk) && o in bk.rem && Accounted(bk, o)
    ensures o in MatchTrees(bk).rem && Accounted(MatchTrees(bk), o)
  {
    MatchTreesRefines(bk);
    QuantityConserved(PoolOf(bk), bk.canceled, o);
    TradedConcat(bk.log, MatchLists(PoolOf(bk), bk.canceled).log, o);
  }

  lemma {:induction false} AddLedger(bk: Book, o: Order)
    requires WellFormed(bk) && Ledger(bk)
    ensures Ledger(Step(bk, Add(o)))
  {
    var bk' := Step(bk, Add(o));
    forall x | x in bk'.rem ensures Accounted(bk', x) {
      if x in bk.rem {
        assert Accounted(bk, x);
      } else {
        NotTraded(bk.log, x);
      }
    }
  }

  lemma {:induction false} StepLedger(bk: Book, op: Op)
    requires WellFormed(bk) && Ledger(bk)
    ensures Ledger(Step(bk, op))
  {
    match op
    case Add(o) => AddLedger(bk, o);
    case Match => MatchLedger(bk);
    case Cancel(id, isBuy) =>
      var bk' := Step(bk, op);
      forall x | x in bk'.rem ensures Accounted(bk', x) {
        assert Accounted(bk, x);
      }
  }

  /** Over any run: quantities are conserved order by order, and nothing is ever over-filled. */
  lemma {:induction false} RunLedger(bk: Book, ops: seq<Op>)
    requires WellFormed(bk) && Ledger(bk)
    ensures Ledger(Run(bk, ops))
    decreases |ops|
  {
    if ops != [] {
      StepWellFormed(bk, ops[0]);
      StepLedger(bk, ops[0]);
      RunLedger(Step(bk, ops[0]), ops[1..]);
    }
  }

  ghost predicate IsDead(bk: Book, o: Order) {
    o in bk.rem && Dead(o, bk.rem, bk.canceled)
  }

  /** `bk'` continues the log of `bk` without naming `o`, and leaves it dead, with the same quantity and in its tree. */
  ghost predicate Frozen(bk: Book, bk': Book, o: Order) {
    && IsDead(bk, o) && IsDead(bk', o) && bk'.rem[o] == bk.rem[o] && (o in bk.canceled ==> o in bk'.canceled)
    && (o in TreeOrders(bk.buys) ==> o in TreeOrders(bk'.buys))
    && (o in TreeOrders(bk.sells) ==> o in TreeOrders(bk'.sells))
    && |bk.log| <= |bk'.log| && bk'.log[..|bk.log|] == bk.log
    && forall i :: |bk.log| <= i < |bk'.log| ==> !Names(bk'.log[i], o)
  }

  lemma {:induction false} MatchFreezes(bk: Book, o: Order)
    requires WellFormed(bk) && IsDead(bk, o)
    ensures Frozen(bk, MatchTrees(bk), o)
  {
    var p, bk' := PoolOf(bk), MatchTrees(bk);
    MatchTreesRefines(bk);
    QuantityConserved(p, bk.canceled, o);
    DeadStays(p, bk.canceled, o);
    OutsidersNotNamed(p, bk.canceled, o);
    var trades := MatchLists(p, bk.canceled).log;
    NotTraded(trades, o);
    assert bk'.log == bk.log + trades;
  }

  /** Insertion drops no order. */
  lemma {:induction false} InsertKeeps(t: Tree, o: Order, x: Order)
    requires Avl(t) && x in TreeOrders(t)
    ensures x in TreeOrders(Insert(t, o.SortKey(), o))
  {
    var s, e := Inorder(t), Entry(o.SortKey(), o);
    InsertInorder(t, e.key, o);
    if !HasKey(s, e.key) {
      var n := WithEntryPosition(s, e);
      SplicedOrders(s, n, e);
    }
  }

  lemma {:induction false} StepFreezes(bk: Book, op: Op, o: Order)
    requires WellFormed(bk) && IsDead(bk, o)
    ensures Frozen(bk, Step(bk, op), o)
  {
    match op
    case Add(x) =>
      if o in TreeOrders(bk.buys) {
        InsertKeeps(bk.buys, x, o);
      }
      if o in TreeOrders(bk.sells) {
        InsertKeeps(bk.sells, x, o);
      }
    case Match => MatchFreezes(bk, o);
    case Cancel(_, _) =>
  }

  lemma {:induction false} FrozenChains(a: Book, b: Book, c: Book, o: Order)
    requires Frozen(a, b, o) && Frozen(b, c, o)
    ensures Frozen(a, c, o)
  {
  }

  /** Once an order is canceled or has nothing remaining, no run changes its remaining quantity, trades it or takes it
      out of its tree. */
  lemma {:induction false} DeadStaysFrozen(bk: Book, ops: seq<Op>, o: Order)
    requires WellFormed(bk) && IsDead(bk, o)
    ensures Frozen(bk, Run(bk, ops), o)
    decreases |ops|
  {
    if ops != [] {
      var bk1 := Step(bk, ops[0]);
      StepWellFormed(bk, ops[0]);
      StepFreezes(bk, ops[0], o);
      DeadStaysFrozen(bk1, ops[1..], o);
      FrozenChains(bk, bk1, Run(bk, ops), o);
    }
  }

  // ----- orders that are dropped or missed -----

  /** After an add, the order rests if and only if it rested before or its key was free on its side. */
  lemma {:induction false} RestsExactly(bk: Book, o: Order)
    requires WellFormed(bk)
    ensures var bk' := Step(bk, Add(o));
            o in TreeOrders(if o.isBuy then bk'.buys else bk'.sells) <==>
            o in TreeOrders(if o.isBuy then bk.buys else bk.sells) || Accepts(bk, o)
  {
    var t := if o.isBuy then bk.buys else bk.sells;
    var s, e := Inorder(t), Entry(o.SortKey(), o);
    InsertInorder(t, e.key, o);
    if !HasKey(s, e.key) {
      var n := WithEntryPosition(s, e);
      assert OrdersOf(WithEntry(s, e))[n] == o;
    }
  }

  /** Two bids under one key: the second is dropped. */
  lemma {:induction false} DuplicateDropped(a: Order, b: Order)
    requires a.isBuy && b.isBuy && a != b && a.SortKey() == b.SortKey()
    ensures var bk := Run(EMPTY_BOOK, [Add(a), Add(b)]);
            TreeOrders(bk.buys) == [a] && b in bk.rem && bk.rem[b] == b.quantity
  {
    RunTwice(EMPTY_BOOK, Add(a), Add(b));
    assert Step(EMPTY_BOOK, Add(a)).buys == Node(Leaf, a.SortKey(), a, 1, Leaf);
  }

  /** Two bids, the lower one second: it rests to the left of the root and cannot be canceled. */
  lemma {:induction false} CancelMisses(hi: Order, lo: Order)
    requires hi.isBuy && lo.isBuy && hi.price == 2.0 && lo.price == 1.0 && hi.orderId != lo.orderId
    ensures var bk := Run(EMPTY_BOOK, [Add(hi), Add(lo)]);
            && TreeOrders(bk.buys) == [lo, hi] && CancelTarget(bk.buys, lo.orderId) == None
            && CancelOrder(bk, lo.orderId, true) == bk
  {
    RunTwice(EMPTY_BOOK, Add(hi), Add(lo));
    var one := Node(Leaf, hi.SortKey(), hi, 1, Leaf);
    assert Step(EMPTY_BOOK, Add(hi)).buys == one;
    var left := Node(Leaf, lo.SortKey(), lo, 1, Leaf);
    assert Insert(one, lo.SortKey(), lo) == Node(left, hi.SortKey(), hi, 2, Leaf);
    assert Inorder(left) == [Entry(lo.SortKey(), lo)];
  }

  // ----- what adding and canceling change -----

  /** Adding an order touches no other order, not the other side and no trade; a new order comes in with its whole
      quantity and unmarked, a known one as it stands. */
  lemma {:induction false} AddTouches(bk: Book, o: Order)
    requires WellFormed(bk)
    ensures var bk' := Step(bk, Add(o));
            && (if o.isBuy then bk'.sells == bk.sells else bk'.buys == bk.buys) && bk'.log == bk.log
            && bk'.rem.Keys == bk.rem.Keys + {o} && (forall x :: x in bk.rem ==> bk'.rem[x] == bk.rem[x])
            && (o !in bk.rem ==> bk'.rem[o] == o.quantity)
            && (forall x :: x in bk'.canceled <==> x in bk.canceled && (x == o ==> o in bk.rem))
  {
  }

  /** On its own side an added order takes one position if its key is free, with smaller keys before and greater keys
      after it; otherwise the side stays as it is. */
  lemma {:induction false} AddPlaces(bk: Book, o: Order)
    requires WellFormed(bk)
    ensures var s, s' := SideOrders(bk, o.isBuy), SideOrders(Step(bk, Add(o)), o.isBuy);
            if exists i :: 0 <= i < |s| && s[i].SortKey() == o.SortKey() then s' == s
            else exists n :: 0 <= n <= |s| && AddedAt(s, s', n, o)
  {
    var t := if o.isBuy then bk.buys else bk.sells;
    InsertInorder(t, o.SortKey(), o);
    PlacedOrders(Inorder(t), o, bk.rem);
    assert SideOrders(Step(bk, Add(o)), o.isBuy) == OrdersOf(WithEntry(Inorder(t), Entry(o.SortKey(), o)));
  }

  lemma {:induction false} PlacedOrders(s: seq<Entry>, o: Order, rem: Remaining)
    requires Sorted(s) && Filed(s, o.isBuy, rem)
    ensures var before, after := OrdersOf(s), OrdersOf(WithEntry(s, Entry(o.SortKey(), o)));
            if exists i :: 0 <= i < |before| && before[i].SortKey() == o.SortKey() then after == before
            else exists n :: 0 <= n <= |before| && AddedAt(before, after, n, o)
  {
    var before, e := OrdersOf(s), Entry(o.SortKey(), o);
    assert forall i :: 0 <= i < |s| ==> before[i].SortKey() == s[i].key;
    if !HasKey(s, e.key) {
      var n := WithEntryPosition(s, e);
      AddedOrders(s, n, e, o.isBuy, rem);
      assert AddedAt(before, OrdersOf(WithEntry(s, e)), n, o);
    }
  }

  function SideOrders(bk: Book, isBuy: bool): seq<Order> {
    TreeOrders(if isBuy then bk.buys else bk.sells)
  }

  /** `s'` is `s` with `o` at position `n`, which is the one its key has. */
  ghost predicate AddedAt(s: seq<Order>, s': seq<Order>, n: nat, o: Order)
    requires n <= |s|
  {
    && s' == s[..n] + [o] + s[n..]
    && (forall i :: 0 <= i < n ==> Less(s[i].SortKey(), o.SortKey()))
    && (forall i :: n <= i < |s| ==> Less(o.SortKey(), s[i].SortKey()))
  }

  lemma {:induction false} AddedOrders(s: seq<Entry>, n: nat, e: Entry, isBuy: bool, rem: Remaining)
    requires n <= |s| && Filed(s, isBuy, rem) && AllLess(s[..n], e.key) && AllGreater(e.key, s[n..])
    requires e.key == e.order.SortKey()
    ensures AddedAt(OrdersOf(s), OrdersOf(s[..n] + [e] + s[n..]), n, e.order)
  {
    forall i | 0 <= i < n ensures Less(OrdersOf(s)[i].SortKey(), e.key) {
      assert s[..n][i] == s[i];
    }
    forall i | n <= i < |s| ensures Less(e.key, OrdersOf(s)[i].SortKey()) {
      assert s[n..][i - n] == s[i];
    }
  }

  /** Position `i` of the path that a cancel walks is the first with the id. */
  ghost predicate FirstOnPath(t: Tree, id: string, i: nat) {
    i < |RightPath(t)| && RightPath(t)[i].orderId == id && NotBefore(t, id, i)
  }

  /** No order among the first `n` of the path has the id. */
  ghost predicate NotBefore(t: Tree, id: string, n: nat)
    requires n <= |RightPath(t)|
  {
    forall j :: 0 <= j < n ==> RightPath(t)[j].orderId != id
  }

  /** A cancel, on either side, marks exactly the first order with the id on the right-most path, and changes nothing
      else; without such an order it changes nothing. */
  lemma {:induction false} CancelEffect(bk: Book, id: string, isBuy: bool)
    requires WellFormed(bk)
    ensures var bk', t := Step(bk, Cancel(id, isBuy)), if isBuy then bk.buys else bk.sells;
            && bk'.buys == bk.buys && bk'.sells == bk.sells && bk'.rem == bk.rem && bk'.log == bk.log
            && (NotBefore(t, id, |RightPath(t)|) ==> bk'.canceled == bk.canceled)
            && (forall i: nat :: FirstOnPath(t, id, i) ==> bk'.canceled == bk.canceled + {RightPath(t)[i]})
            && (NotBefore(t, id, |RightPath(t)|) || exists i: nat :: FirstOnPath(t, id, i))
  {
    var t := if isBuy then bk.buys else bk.sells;
    TargetExactly(t, id);
    if !NotBefore(t, id, |RightPath(t)|) {
      var i := FindOnPath(t, id);
    }
  }

  /** What the search finds is the first order with the id on the path, and nothing when there is none. */
  lemma {:induction false} TargetExactly(t: Tree, id: string)
    ensures NotBefore(t, id, |RightPath(t)|) ==> CancelTarget(t, id) == None
    ensures forall i: nat :: FirstOnPath(t, id, i) ==> CancelTarget(t, id) == Some(RightPath(t)[i])
  {
    CancelCharacterised(t, id);
    forall i: nat | FirstOnPath(t, id, i) ensures CancelTarget(t, id) == Some(RightPath(t)[i]) {
      assert RightPath(t)[i].orderId == id;
      var k :| 0 <= k < |RightPath(t)| && RightPath(t)[k] == CancelTarget(t, id).value &&
               RightPath(t)[k].orderId == id && forall j :: 0 <= j < k ==> RightPath(t)[j].orderId != id;
      assert !(i < k) && !(k < i);
    }
  }

  lemma {:induction false} FindOnPath(t: Tree, id: string) returns (i: nat)
    requires !NotBefore(t, id, |RightPath(t)|)
    ensures FirstOnPath(t, id, i)
  {
    i := 0;
    while RightPath(t)[i].orderId != id
      invariant i < |RightPath(t)| && NotBefore(t, id, i)
      decreases |RightPath(t)| - i
    {
      i := i + 1;
    }
  }

  /** Two asks, the higher one second: a cancel by either id marks that one. */
  lemma {:induction false} CanceledAsksAreMarked(lo: Order, hi: Order)
    requires !lo.isBuy && !hi.isBuy && lo.price == 1.0 && hi.price == 2.0 && lo.orderId != hi.orderId
    ensures var bk := Run(EMPTY_BOOK, [Add(lo), Add(hi)]);
            && Step(bk, Cancel(lo.orderId, false)).canceled == {lo}
            && Step(bk, Cancel(hi.orderId, false)).canceled == {hi}
  {
    RunTwice(EMPTY_BOOK, Add(lo), Add(hi));
    var one := Node(Leaf, lo.SortKey(), lo, 1, Leaf);
    assert Step(EMPTY_BOOK, Add(lo)).sells == one;
    var right := Node(Leaf, hi.SortKey(), hi, 1, Leaf);
    var two := Node(Leaf, lo.SortKey(), lo, 2, right);
    assert Insert(one, hi.SortKey(), hi) == two;
    var bk := Run(EMPTY_BOOK, [Add(lo), Add(hi)]);
    assert bk.sells == two && bk.canceled == {};
    assert RightPath(Leaf) == [];
    assert RightPath(right) == [hi] + RightPath(Leaf) == [hi];
    assert RightPath(two) == [lo] + RightPath(right) == [lo, hi];
    CancelEffect(bk, lo.orderId, false);
    CancelEffect(bk, hi.orderId, false);
    assert FirstOnPath(two, lo.orderId, 0) && FirstOnPath(two, hi.orderId, 1);
  }

  // ----- a dead best order blocks the book -----

  /** Each added bid is filed under a key that is not greater than `k`. */
  predicate NoBidAbove(ops: seq<Op>, k: Key) {
    forall i :: 0 <= i < |ops| && ops[i].Add? && ops[i].order.isBuy ==> !Less(k, ops[i].order.SortKey())
  }

  /** Each added ask is filed under a key that is not less than `k`. */
  predicate NoAskBelow(ops: seq<Op>, k: Key) {
    forall i :: 0 <= i < |ops| && ops[i].Add? && !ops[i].order.isBuy ==> !Less(ops[i].order.SortKey(), k)
  }

  lemma {:induction false} InsertKeepsBest(t: Tree, o: Order)
    requires Avl(t) && t.Node?
    ensures !Less(Rightmost(t).key, o.SortKey()) ==> Rightmost(Insert(t, o.SortKey(), o)) == Rightmost(t)
    ensures !Less(o.SortKey(), Leftmost(t).key) ==> Leftmost(Insert(t, o.SortKey(), o)) == Leftmost(t)
  {
    var s, e := Inorder(t), Entry(o.SortKey(), o);
    RightmostIsLast(t);
    LeftmostIsFirst(t);
    RightmostIsLast(Insert(t, e.key, o));
    LeftmostIsFirst(Insert(t, e.key, o));
    InsertInorder(t, e.key, o);
    if !HasKey(s, e.key) {
      var n := WithEntryPosition(s, e);
      assert s[|s| - 1].key != e.key && s[0].key != e.key;
    }
  }

  /** The best bid is a dead one. */
  ghost predicate BidBlocked(bk: Book, o: Order) {
    bk.buys.Node? && Rightmost(bk.buys) == Entry(o.SortKey(), o) && IsDead(bk, o)
  }

  /** The best ask is a dead one. */
  ghost predicate AskBlocked(bk: Book, o: Order) {
    bk.sells.Node? && Leftmost(bk.sells) == Entry(o.SortKey(), o) && IsDead(bk, o)
  }

  lemma {:induction false} StepBidBlocked(bk: Book, op: Op, o: Order)
    requires WellFormed(bk) && BidBlocked(bk, o) && NoBidAbove([op], o.SortKey())
    ensures BidBlocked(Step(bk, op), o) && Step(bk, op).log == bk.log
  {
    if op.Add? && op.order.isBuy {
      assert [op][0] == op;
      InsertKeepsBest(bk.buys, op.order);
    }
  }

  lemma {:induction false} StepAskBlocked(bk: Book, op: Op, o: Order)
    requires WellFormed(bk) && AskBlocked(bk, o) && NoAskBelow([op], o.SortKey())
    ensures AskBlocked(Step(bk, op), o) && Step(bk, op).log == bk.log
  {
    if op.Add? && !op.order.isBuy {
      assert [op][0] == op;
      InsertKeepsBest(bk.sells, op.order);
    }
  }

  /** While the best bid is a dead one, no run trades anything until a bid with a greater key is added. */
  lemma {:induction false} DeadBestBidBlocks(bk: Book, ops: seq<Op>, o: Order)
    requires WellFormed(bk) && BidBlocked(bk, o) && NoBidAbove(ops, o.SortKey())
    ensures Run(bk, ops).log == bk.log && BidBlocked(Run(bk, ops), o)
    decreases |ops|
  {
    if ops != [] {
      StepWellFormed(bk, ops[0]);
      StepBidBlocked(bk, ops[0], o);
      DeadBestBidBlocks(Step(bk, ops[0]), ops[1..], o);
    }
  }

  /** While the best ask is a dead one, no run trades anything until an ask with a smaller key is added. */
  lemma {:induction false} DeadBestAskBlocks(bk: Book, ops: seq<Op>, o: Order)
    requires WellFormed(bk) && AskBlocked(bk, o) && NoAskBelow(ops, o.SortKey())
    ensures Run(bk, ops).log == bk.log && AskBlocked(Run(bk, ops), o)
    decreases |ops|
  {
    if ops != [] {
      StepWellFormed(bk, ops[0]);
      StepAskBlocked(bk, ops[0], o);
      DeadBestAskBlocks(Step(bk, ops[0]), ops[1..], o);
    }
  }

  /** In a book in which some bid reaches some ask, a match trades nothing if and only if the best bid or the best ask
      is canceled or has nothing remaining, or they are of different symbols. */
  lemma {:induction false} MatchBlockedExactly(bk: Book, i: nat, j: nat)
    requires WellFormed(bk)
    requires i < |PoolOf(bk).bids| && j < |PoolOf(bk).asks| && PoolOf(bk).bids[i].price >= PoolOf(bk).asks[j].price
    ensures bk.buys.Node? && bk.sells.Node?
    ensures var b, a := Rightmost(bk.buys).order, Leftmost(bk.sells).order;
            && b in bk.rem && a in bk.rem
            && (Step(bk, Match).log == bk.log <==> Stuck(b, a, bk.rem, bk.canceled))
  {
    PoolFacts(bk);
    BestOrders(bk);
    MatchTreesRefines(bk);
    BlockedExactly(PoolOf(bk), bk.canceled, i, j);
  }

  /** After any run that ends with a match, a bid reaches an ask only behind a best pair that cannot trade. */
  lemma {:induction false} RunCrossedOnlyIfStuck(ops: seq<Op>, i: nat, j: nat)
    requires var p := PoolOf(Run(EMPTY_BOOK, ops + [Match]));
             i < |p.bids| && j < |p.asks| && p.bids[i].price >= p.asks[j].price
    ensures var bk := Run(EMPTY_BOOK, ops + [Match]);
            && BestBid(PoolOf(bk)) in bk.rem && BestAsk(PoolOf(bk)) in bk.rem
            && Stuck(BestBid(PoolOf(bk)), BestAsk(PoolOf(bk)), bk.rem, bk.canceled)
  {
    var bk := Run(EMPTY_BOOK, ops);
    RunThenMatch(EMPTY_BOOK, ops);
    PoolFacts(bk);
    MatchTreesRefines(bk);
    CrossedOnlyIfStuck(PoolOf(bk), bk.canceled, i, j);
  }

  lemma {:induction false} RunOnce(bk: Book, op: Op)
    requires WellFormed(bk)
    ensures Run(bk, [op]) == Step(bk, op)
  {
    StepWellFormed(bk, op);
    assert [op][1..] == [];
    assert Run(Step(bk, op), []) == Step(bk, op);
  }

  lemma {:induction false} RunThenMatch(bk: Book, ops: seq<Op>)
    requires WellFormed(bk)
    ensures Run(bk, ops + [Match]) == MatchTrees(Run(bk, ops))
  {
    RunConcat(bk, ops, [Match]);
    RunOnce(Run(bk, ops), Match);
  }

  /** A bid and an ask that meet, then a match: one trade at the ask's price, and both orders have left their trees. */
  lemma {:induction false} MeetingPairTrades(bid: Order, ask: Order)
    requires bid.isBuy && !ask.isBuy && bid.symbol == ask.symbol
    requires bid.price == 2.0 && ask.price == 1.0 && bid.quantity == ask.quantity == 1
    ensures var bk := Run(EMPTY_BOOK, [Add(bid), Add(ask), Match]);
            && bk.log == [Trade(bid, ask, 1.0, 1)] && TreeOrders(bk.buys) == [] && TreeOrders(bk.sells) == []
            && bk.rem == map[bid := 0, ask := 0]
  {
    var bids, asks := Node(Leaf, bid.SortKey(), bid, 1, Leaf), Node(Leaf, ask.SortKey(), ask, 1, Leaf);
    var bk := Book(bids, asks, map[bid := 1, ask := 1], {}, []);
    RunTwice(EMPTY_BOOK, Add(bid), Add(ask));
    assert Step(EMPTY_BOOK, Add(bid)) == Book(bids, Leaf, map[bid := 1], {}, []);
    assert Step(Step(EMPTY_BOOK, Add(bid)), Add(ask)) == bk;
    assert [Add(bid), Add(ask), Match] == [Add(bid), Add(ask)] + [Match];
    RunThenMatch(EMPTY_BOOK, [Add(bid), Add(ask)]);
    var p := Pool([bid], [ask], map[bid := 1, ask := 1]);
    PairTrades(bid, ask);
    assert Inorder(bids) == [Entry(bid.SortKey(), bid)] && Inorder(asks) == [Entry(ask.SortKey(), ask)];
    assert PoolOf(bk) == p;
    MatchTreesRefines(bk);
  }

  lemma {:induction false} PairTrades(bid: Order, ask: Order)
    requires bid.isBuy && !ask.isBuy && bid.symbol == ask.symbol && bid.price == 2.0 && ask.price == 1.0
    ensures var p := Pool([bid], [ask], map[bid := 1, ask := 1]);
            && WellSided(p)
            && MatchLists(p, {}) == Outcome(Pool([], [], map[bid := 0, ask := 0]), [Trade(bid, ask, 1.0, 1)])
  {
    var p := Pool([bid], [ask], map[bid := 1, ask := 1]);
    assert Round(p, {}) == Pool([], [], map[bid := 0, ask := 0]);
    assert MatchLists(Round(p, {}), {}) == Outcome(Round(p, {}), []);
  }

  /** A bid is canceled, then a bid and an ask that could trade are added, then the book is matched: nothing trades. */
  lemma {:induction false} CanceledBidBlocksLivePair(top: Order, bid: Order, ask: Order)
    requires top.isBuy && bid.isBuy && !ask.isBuy && top.symbol == bid.symbol == ask.symbol
    requires top.price == 3.0 && bid.price == 2.0 && ask.price == 1.0
    requires top.quantity == bid.quantity == ask.quantity == 1
    ensures var bk := Run(EMPTY_BOOK, [Add(top), Cancel(top.orderId, true), Add(bid), Add(ask), Match]);
            && bk.log == [] && bid in TreeOrders(bk.buys) && ask in TreeOrders(bk.sells)
            && bid !in bk.canceled && ask !in bk.canceled && bk.rem[bid] == bk.rem[ask] == 1
  {
    var tops := Node(Leaf, top.SortKey(), top, 1, Leaf);
    var bk2 := Book(tops, Leaf, map[top := 1], {top}, []);
    var bids := Node(Node(Leaf, bid.SortKey(), bid, 1, Leaf), top.SortKey(), top, 2, Leaf);
    var bk3 := Book(bids, Leaf, map[top := 1, bid := 1], {top}, []);
    var asks := Node(Leaf, ask.SortKey(), ask, 1, Leaf);
    var bk4 := Book(bids, asks, map[top := 1, bid := 1, ask := 1], {top}, []);
    RunTwice(EMPTY_BOOK, Add(top), Cancel(top.orderId, true));
    assert Step(Step(EMPTY_BOOK, Add(top)), Cancel(top.orderId, true)) == bk2;
    RunTwice(bk2, Add(bid), Add(ask));
    assert Insert(tops, bid.SortKey(), bid) == bids;
    assert Step(bk2, Add(bid)) == bk3;
    assert Step(bk3, Add(ask)) == bk4;
    assert !TreesCanMatch(bk4);
    RunConcat(EMPTY_BOOK, [Add(top), Cancel(top.orderId, true)], [Add(bid), Add(ask)]);
    RunConcat(EMPTY_BOOK, [Add(top), Cancel(top.orderId, true)] + [Add(bid), Add(ask)], [Match]);
    assert [Add(top), Cancel(top.orderId, true), Add(bid), Add(ask), Match] ==
           [Add(top), Cancel(top.orderId, true)] + [Add(bid), Add(ask)] + [Match];
    assert TreeOrders(bids)[0] == bid && TreeOrders(asks)[0] == ask;
  }

  /** A bid for nothing above a bid and an ask that could trade: nothing trades, although no order is canceled. */
  lemma {:induction false} EmptyBidBlocksLivePair(top: Order, bid: Order, ask: Order)
    requires top.isBuy && bid.isBuy && !ask.isBuy && top.symbol == bid.symbol == ask.symbol
    requires top.price == 3.0 && bid.price == 2.0 && ask.price == 1.0
    requires top.quantity == 0 && bid.quantity == ask.quantity == 1
    ensures var bk := Run(EMPTY_BOOK, [Add(top), Add(bid), Add(ask), Match]);
            && bk.log == [] && bk.canceled == {} && bid in TreeOrders(bk.buys) && ask in TreeOrders(bk.sells)
            && bk.rem[bid] == bk.rem[ask] == 1
  {
    var tops := Node(Leaf, top.SortKey(), top, 1, Leaf);
    var bids := Node(Node(Leaf, bid.SortKey(), bid, 1, Leaf), top.SortKey(), top, 2, Leaf);
    var asks := Node(Leaf, ask.SortKey(), ask, 1, Leaf);
    var bk2 := Book(bids, Leaf, map[top := 0, bid := 1], {}, []);
    var bk3 := Book(bids, asks, map[top := 0, bid := 1, ask := 1], {}, []);
    RunTwice(EMPTY_BOOK, Add(top), Add(bid));
    assert Insert(tops, bid.SortKey(), bid) == bids;
    assert Step(EMPTY_BOOK, Add(top)).buys == tops;
    assert Step(Step(EMPTY_BOOK, Add(top)), Add(bid)) == bk2;
    RunTwice(bk2, Add(ask), Match);
    assert Step(bk2, Add(ask)) == bk3;
    assert !TreesCanMatch(bk3);
    RunConcat(EMPTY_BOOK, [Add(top), Add(bid)], [Add(ask), Match]);
    assert [Add(top), Add(bid), Add(ask), Match] == [Add(top), Add(bid)] + [Add(ask), Match];
    assert TreeOrders(bids)[0] == bid && TreeOrders(asks)[0] == ask;
  }

  lemma {:induction false} RunConcat(bk: Book, a: seq<Op>, b: seq<Op>)
    requires WellFormed(bk)
    ensures Run(bk, a + b) == Run(Run(bk, a), b)
    decreases |a|
  {
    if a == [] {
      assert a + b == b;
    } else {
      assert (a + b)[1..] == a[1..] + b;
      StepWellFormed(bk, a[0]);
      RunConcat(Step(bk, a[0]), a[1..], b);
    }
  }

  lemma {:induction false} RunTwice(bk: Book, first: Op, second: Op)
    requires WellFormed(bk)
    ensures WellFormed(Step(bk, first)) && WellFormed(Step(Step(bk, first), second))
    ensures Run(bk, [first, second]) == Step(Step(bk, first), second)
  {
    StepWellFormed(bk, first);
    StepWellFormed(Step(bk, first), second);
    var bk1 := Step(bk, first);
    assert [first, second][1..] == [second] && [second][1..] == [];
    assert Run(Step(bk1, second), []) == Step(bk1, second);
    assert Run(bk1, [second]) == Step(bk1, second);
  }

  // ----- runs without cancels leave no crossed book -----

  /** Each operation adds a new order of the symbol with a positive quantity, or matches. */
  predicate Clean(ops: seq<Op>, symbol: string, seen: set<Order>)
    decreases |ops|
  {
    ops == [] ||
    match ops[0]
    case Add(o) => o !in seen && o.quantity > 0 && o.symbol == symbol && Clean(ops[1..], symbol, seen + {o})
    case Match => Clean(ops[1..], symbol, seen)
    case Cancel(_, _) => false
  }

  ghost predicate LiveSide(s: seq<Order>, rem: Remaining, canceled: set<Order>, symbol: string) {
    forall i :: 0 <= i < |s| ==> s[i] in rem && !Dead(s[i], rem, canceled) && s[i].symbol == symbol
  }

  /** Every resting order is live and of the symbol. */
  ghost predicate LiveBook(bk: Book, symbol: string) {
    && LiveSide(TreeOrders(bk.buys), bk.rem, bk.canceled, symbol)
    && LiveSide(TreeOrders(bk.sells), bk.rem, bk.canceled, symbol)
  }

  lemma {:induction false} MatchLive(bk: Book, symbol: string)
    requires WellFormed(bk) && LiveBook(bk, symbol)
    ensures LiveBook(MatchTrees(bk), symbol)
    ensures MatchTrees(bk).rem.Keys == bk.rem.Keys
  {
    PoolFacts(bk);
    MatchTreesRefines(bk);
    ResidualOrders(PoolOf(bk), bk.canceled);
    LiveStays(PoolOf(bk), bk.canceled);
  }

  lemma {:induction false} AddLive(bk: Book, o: Order, symbol: string)
    requires WellFormed(bk) && LiveBook(bk, symbol)
    requires o !in bk.rem && o.quantity > 0 && o.symbol == symbol
    ensures LiveBook(Step(bk, Add(o)), symbol)
  {
    var bk' := Step(bk, Add(o));
    var t := if o.isBuy then bk.buys else bk.sells;
    InsertedOrders(t, o);
    SideGrows(TreeOrders(t), TreeOrders(Insert(t, o.SortKey(), o)), o, bk, symbol);
    SideGrows(TreeOrders(bk.buys), TreeOrders(bk.buys), o, bk, symbol);
    SideGrows(TreeOrders(bk.sells), TreeOrders(bk.sells), o, bk, symbol);
  }

  lemma {:induction false} SideGrows(s: seq<Order>, s': seq<Order>, o: Order, bk: Book, symbol: string)
    requires LiveSide(s, bk.rem, bk.canceled, symbol)
    requires o !in bk.rem && o.quantity > 0 && o.symbol == symbol
    requires OnlyAdds(s, s', o)
    ensures LiveSide(s', bk.rem[o := o.quantity], bk.canceled - {o}, symbol)
  {
  }

  ghost predicate OnlyAdds(s: seq<Order>, s': seq<Order>, o: Order) {
    forall i :: 0 <= i < |s'| ==> s'[i] == o || s'[i] in s
  }

  /** Insertion adds no order but the one inserted. */
  lemma {:induction false} InsertedOrders(t: Tree, o: Order)
    requires Avl(t)
    ensures OnlyAdds(TreeOrders(t), TreeOrders(Insert(t, o.SortKey(), o)), o)
  {
    var e := Entry(o.SortKey(), o);
    InsertInorder(t, e.key, o);
    var s, s' := Inorder(t), Inorder(Insert(t, e.key, o));
    if !HasKey(s, e.key) {
      var n := WithEntryPosition(s, e);
      SplicedOrders(s, n, e);
    }
  }

  lemma {:induction false} SplicedOrders(s: seq<Entry>, n: nat, e: Entry)
    requires n <= |s|
    ensures OnlyAdds(OrdersOf(s), OrdersOf(s[..n] + [e] + s[n..]), e.order)
    ensures forall x :: x in OrdersOf(s) ==> x in OrdersOf(s[..n] + [e] + s[n..])
  {
    var s' := s[..n] + [e] + s[n..];
    forall i | 0 <= i < |s'| ensures OrdersOf(s')[i] == e.order || OrdersOf(s')[i] in OrdersOf(s) {
      if i != n {
        assert OrdersOf(s')[i] == OrdersOf(s)[if i < n then i else i - 1];
      }
    }
    forall x | x in OrdersOf(s) ensures x in OrdersOf(s') {
      var i :| 0 <= i < |s| && OrdersOf(s)[i] == x;
      assert OrdersOf(s')[if i < n then i else i + 1] == x;
    }
  }

  lemma {:induction false} RunLive(bk: Book, ops: seq<Op>, symbol: string)
    requires WellFormed(bk) && LiveBook(bk, symbol) && Clean(ops, symbol, bk.rem.Keys)
    ensures LiveBook(Run(bk, ops), symbol)
    decreases |ops|
  {
    if ops != [] {
      StepWellFormed(bk, ops[0]);
      if ops[0].Add? {
        AddLive(bk, ops[0].order, symbol);
        assert Step(bk, ops[0]).rem.Keys == bk.rem.Keys + {ops[0].order};
      } else {
        MatchLive(bk, symbol);
      }
      RunLive(Step(bk, ops[0]), ops[1..], symbol);
    }
  }

  /** After any clean run that ends with a match, every bid is strictly below every ask. */
  lemma {:induction false} RunUncrosses(ops: seq<Op>, symbol: string, i: nat, j: nat)
    requires Clean(ops, symbol, {})
    requires var p := PoolOf(Run(EMPTY_BOOK, ops + [Match]));
             i < |p.bids| && j < |p.asks|
    ensures var p := PoolOf(Run(EMPTY_BOOK, ops + [Match]));
            p.bids[i].price < p.asks[j].price
  {
    assert EMPTY_BOOK.rem.Keys == {};
    RunLive(EMPTY_BOOK, ops, symbol);
    RunThenMatch(EMPTY_BOOK, ops);
    var bk := Run(EMPTY_BOOK, ops);
    PoolFacts(bk);
    MatchTreesRefines(bk);
    MatchingUncrosses(PoolOf(bk), bk.canceled, symbol, i, j);
  }

  /** The match at the end of any clean run trades the greatest volume that an auction at one price would. */
  lemma {:induction false} RunTradesClearingVolume(ops: seq<Op>, symbol: string) returns (x: real, trades: seq<Trade>)
    requires Clean(ops, symbol, {})
    ensures var bk := Run(EMPTY_BOOK, ops);
            && Run(EMPTY_BOOK, ops + [Match]).log == bk.log + trades && WellSided(PoolOf(bk))
            && Volume(trades) == AuctionVolume(PoolOf(bk), x)
            && forall y :: AuctionVolume(PoolOf(bk), y) <= Volume(trades)
  {
    assert EMPTY_BOOK.rem.Keys == {};
    RunLive(EMPTY_BOOK, ops, symbol);
    RunThenMatch(EMPTY_BOOK, ops);
    var bk := Run(EMPTY_BOOK, ops);
    PoolFacts(bk);
    MatchTreesRefines(bk);
    trades := MatchLists(PoolOf(bk), bk.canceled).log;
    x := VolumeIsClearing(PoolOf(bk), bk.canceled, symbol);
  }
}
