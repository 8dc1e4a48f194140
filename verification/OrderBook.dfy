/** The order book of src/trading_engine/order_book.c on the heap: two linked trees over shared Order objects.

    Its abstract value is a Book; every method is proved to compute the corresponding function of BookModel.
    The trade broadcaster is replaced by the ghost log. */
module OrderBook {
  import opened Orders
  import opened AvlSpec
  import opened Matching
  import opened BookModel
  import opened LinkedAvl

  class OrderBook {
    const buyOrders: AvlTree
    const sellOrders: AvlTree
    /** The remaining quantity of every order that was ever handed to the book. */
    ghost var rem: Remaining
    ghost var canceled: set<Order>
    /** The trades broadcast so far. */
    ghost var log: seq<Trade>

    ghost predicate TreesValid()
      reads buyOrders, sellOrders, buyOrders.Repr, sellOrders.Repr
    {
      && buyOrders != sellOrders && buyOrders.Repr !! sellOrders.Repr
      && buyOrders.Valid() && sellOrders.Valid()
      && buyOrders.isBuyTree && !sellOrders.isBuyTree
    }

    /** The ghost quantities and marks are those of the Order objects. */
    ghost predicate InStep()
      reads this, rem.Keys
    {
      forall o :: o in rem.Keys ==> rem[o] == o.remaining && (o in canceled <==> o.canceled)
    }

    ghost predicate Valid()
      reads this, buyOrders, sellOrders, buyOrders.Repr, sellOrders.Repr, rem.Keys
    {
      TreesValid() && InStep() && WellFormed(View())
    }

    ghost function View(): (bk: Book)
      reads this, buyOrders, sellOrders
    {
      Book(buyOrders.Value(), sellOrders.Value(), rem, canceled, log)
    }

    constructor ()
      ensures Valid() && View() == EMPTY_BOOK
      ensures fresh(buyOrders) && fresh(sellOrders)
    {
      buyOrders := new AvlTree(true);
      sellOrders := new AvlTree(false);
      rem, canceled, log := map[], {}, [];
    }

    method AddOrder(order: Order?) returns (status: int)
      requires Valid()
      modifies this`rem, this`canceled
      modifies buyOrders, buyOrders.Repr, sellOrders, sellOrders.Repr
      ensures Valid()
      ensures fresh(buyOrders.Repr - old(buyOrders.Repr))
      ensures fresh(sellOrders.Repr - old(sellOrders.Repr))
      ensures status == if order == null then -1 else 0
      ensures View() == if order == null then old(View())
                        else BookModel.AddOrder(old(View()), order, order.remaining, order.canceled)
    {
      if order == null {
        return -1;
      }
      AddWellFormed(View(), order, order.remaining, order.canceled);
      Enter(order);
      return 0;
    }

    method Enter(order: Order)
      requires TreesValid() && InStep()
      modifies this`rem, this`canceled
      modifies buyOrders, buyOrders.Repr, sellOrders, sellOrders.Repr
      ensures TreesValid() && InStep()
      ensures fresh(buyOrders.Repr - old(buyOrders.Repr))
      ensures fresh(sellOrders.Repr - old(sellOrders.Repr))
      ensures View() == BookModel.AddOrder(old(View()), order, order.remaining, order.canceled)
    {
      Note(order);
      FileOrder(order);
    }

    ghost method Note(order: Order)
      requires InStep()
      modifies this`rem, this`canceled
      ensures InStep()
      ensures rem == old(rem)[order := order.remaining]
      ensures canceled == if order.canceled then old(canceled) + {order} else old(canceled) - {order}
    {
      rem := rem[order := order.remaining];
      canceled := if order.canceled then canceled + {order} else canceled - {order};
    }

    /** The tree update of an add, on the side the order belongs to. */
    method FileOrder(order: Order)
      requires TreesValid()
      modifies buyOrders, buyOrders.Repr, sellOrders, sellOrders.Repr
      ensures TreesValid()
      ensures fresh(buyOrders.Repr - old(buyOrders.Repr))
      ensures fresh(sellOrders.Repr - old(sellOrders.Repr))
      ensures buyOrders.Value() == if order.isBuy then Insert(old(buyOrders.Value()), order.SortKey(), order)
                                   else old(buyOrders.Value())
      ensures sellOrders.Value() == if order.isBuy then old(sellOrders.Value())
                                    else Insert(old(sellOrders.Value()), order.SortKey(), order)
    {
      if order.isBuy {
        FileIn(buyOrders, sellOrders, order);
      } else {
        FileIn(sellOrders, buyOrders, order);
      }
    }

    /** Files an order in one tree, which leaves the other alone. */
    static method FileIn(tree: AvlTree, ghost other: AvlTree, order: Order)
      requires tree.Valid() && other.Valid() && tree != other && tree.Repr !! other.Repr
      modifies tree, tree.Repr
      ensures tree.Valid() && other.Valid() && tree.Repr !! other.Repr
      ensures fresh(tree.Repr - old(tree.Repr))
      ensures tree.Value() == Insert(old(tree.Value()), order.SortKey(), order)
    {
      ghost var calls := tree.Insert(order.price, order.timestamp, order);
    }

    /** Takes whichever of the two orders is filled off its side. */
    method RemoveFilled(buy: Order, sell: Order)
      requires TreesValid()
      modifies buyOrders, buyOrders.Repr, sellOrders, sellOrders.Repr
      ensures TreesValid()
      ensures buyOrders.Repr <= old(buyOrders.Repr) && sellOrders.Repr <= old(sellOrders.Repr)
      ensures buyOrders.Value() == if buy.remaining == 0 then Delete(old(buyOrders.Value()), buy.SortKey())
                                   else old(buyOrders.Value())
      ensures sellOrders.Value() == if sell.remaining == 0 then Delete(old(sellOrders.Value()), sell.SortKey())
                                    else old(sellOrders.Value())
    {
      if buy.remaining == 0 {
        RemoveFrom(buyOrders, sellOrders, buy);
      }
      if sell.remaining == 0 {
        RemoveFrom(sellOrders, buyOrders, sell);
      }
    }

    /** Takes an order off one tree, which leaves the other alone. */
    static method RemoveFrom(tree: AvlTree, ghost other: AvlTree, order: Order)
      requires tree.Valid() && other.Valid() && tree != other && tree.Repr !! other.Repr
      modifies tree, tree.Repr
      ensures tree.Valid() && other.Valid()
      ensures tree.Repr <= old(tree.Repr)
      ensures tree.Value() == Delete(old(tree.Value()), order.SortKey())
    {
      ghost var calls := tree.DeleteOrder(order.price, order.timestamp);
    }

    /** Takes the matched quantity off both orders and broadcasts the trade at the seller's price. A negative quantity
        is broadcast all the same, but taken off neither order. */
    method ProcessMatch(buy: Order, sell: Order)
      requires InStep() && buy in rem && sell in rem
      modifies this`rem, this`log, buy`remaining, sell`remaining
      ensures InStep()
      ensures rem == if MatchQuantity(buy, sell, old(rem)) >= 0 then AfterMatch(buy, sell, old(rem)) else old(rem)
      ensures log == old(log) + [TradeOf(buy, sell, old(rem))]
    {
      var matchQuantity := if buy.remaining < sell.remaining then buy.remaining else sell.remaining;
      var s1 := buy.ReduceQuantity(matchQuantity);
      var s2 := sell.ReduceQuantity(matchQuantity);
      log := log + [Trade(buy, sell, sell.price, matchQuantity)];
      rem := rem[buy := buy.remaining][sell := sell.remaining];
    }

    /** Trades the pair and takes whichever of the two is filled off its side. */
    method Execute(buy: Order, sell: Order)
      requires TreesValid() && InStep() && buy in rem && sell in rem && buy.isBuy && !sell.isBuy
      requires rem[buy] > 0 && rem[sell] > 0
      modifies this`rem, this`log, buy`remaining, sell`remaining
      modifies buyOrders, buyOrders.Repr, sellOrders, sellOrders.Repr
      ensures TreesValid() && InStep()
      ensures buyOrders.Repr <= old(buyOrders.Repr) && sellOrders.Repr <= old(sellOrders.Repr)
      ensures rem == AfterMatch(buy, sell, old(rem)) && log == old(log) + [TradeOf(buy, sell, old(rem))]
      ensures buyOrders.Value() == if rem[buy] == 0 then Delete(old(buyOrders.Value()), buy.SortKey())
                                   else old(buyOrders.Value())
      ensures sellOrders.Value() == if rem[sell] == 0 then Delete(old(sellOrders.Value()), sell.SortKey())
                                    else old(sellOrders.Value())
    {
      ProcessMatch(buy, sell);
      RemoveFilled(buy, sell);
    }

    /** The greatest bid and the least ask, and whether they can trade. */
    method BestPair() returns (bestBuy: Order?, bestSell: Order?, possible: bool)
      requires Valid()
      ensures possible == TreesCanMatch(View())
      ensures possible ==>
                && bestBuy == Rightmost(buyOrders.Value()).order && bestSell == Leftmost(sellOrders.Value()).order
                && bestBuy in rem && bestSell in rem && bestBuy.isBuy && !bestSell.isBuy
                && rem[bestBuy] > 0 && rem[bestSell] > 0
    {
      bestBuy := buyOrders.FindMax();
      bestSell := sellOrders.FindMin();
      if bestBuy == null || bestSell == null {
        return bestBuy, bestSell, false;
      }
      BestOrders(View());
      PairSides(View());
      return bestBuy, bestSell, IsMatchPossible(bestBuy, bestSell);
    }

    /** Trades the best pair, which is one round on the value. */
    method TradeBest(buy: Order, sell: Order)
      requires TreesValid() && InStep() && WellFormed(View()) && TreesCanMatch(View())
      requires buy == Rightmost(buyOrders.Value()).order && sell == Leftmost(sellOrders.Value()).order
      requires buy in rem && sell in rem && buy.isBuy && !sell.isBuy && rem[buy] > 0 && rem[sell] > 0
      modifies this`rem, this`log, buy`remaining, sell`remaining
      modifies buyOrders, buyOrders.Repr, sellOrders, sellOrders.Repr
      ensures TreesValid() && InStep()
      ensures buyOrders.Repr <= old(buyOrders.Repr) && sellOrders.Repr <= old(sellOrders.Repr)
      ensures View() == TreeRound(old(View())) && rem.Keys == old(rem.Keys)
    {
      Execute(buy, sell);
    }

    /** One turn of the matching loop; false when there was nothing to match. */
    method MatchBest() returns (matched: bool)
      requires Valid()
      modifies this`rem, this`log, rem.Keys`remaining
      modifies buyOrders, buyOrders.Repr, sellOrders, sellOrders.Repr
      ensures Valid() && buyOrders.Repr <= old(buyOrders.Repr) && sellOrders.Repr <= old(sellOrders.Repr)
      ensures matched == TreesCanMatch(old(View()))
      ensures View() == if matched then TreeRound(old(View())) else old(View())
      ensures rem.Keys == old(rem.Keys)
    {
      var bestBuy, bestSell, possible := BestPair();
      if !possible {
        return false;
      }
      TreeRoundRefines(View());
      TradeBest(bestBuy, bestSell);
      return true;
    }

    method MatchOrders()
      requires Valid()
      modifies this`rem, this`log, rem.Keys`remaining
      modifies buyOrders, buyOrders.Repr, sellOrders, sellOrders.Repr
      ensures Valid() && View() == MatchTrees(old(View()))
      ensures buyOrders.Repr <= old(buyOrders.Repr) && sellOrders.Repr <= old(sellOrders.Repr)
    {
      if buyOrders.IsEmpty() {
        return;
      }
      if sellOrders.IsEmpty() {
        return;
      }
      var bestBuy, bestSell, possible := BestPair();
      if !possible {
        return;
      }

      var matchesFound := true;
      while matchesFound
        invariant Valid() && rem.Keys == old(rem.Keys)
        invariant buyOrders.Repr <= old(buyOrders.Repr) && sellOrders.Repr <= old(sellOrders.Repr)
        invariant MatchTrees(View()) == MatchTrees(old(View()))
        invariant !matchesFound ==> !TreesCanMatch(View())
        decreases |Inorder(buyOrders.Value())| + |Inorder(sellOrders.Value())|, matchesFound
      {
        ghost var bk := View();
        matchesFound := MatchBest();
        if matchesFound {
          RoundShrinks(bk);
        }
      }
    }
  
    /** Marks the first order with the id that the search meets; -1 when it meets none. */
    method CancelOrder(orderId: string, isBuy: bool) returns (status: int)
      requires Valid()
      modifies this`canceled, rem.Keys`canceled
      ensures Valid() && View() == BookModel.CancelOrder(old(View()), orderId, isBuy)
      // The first order with the id on the right-most path is marked and no other order; without one, none is.
      ensures var t := if isBuy then buyOrders.Value() else sellOrders.Value();
              && (status == 0 || status == -1) && (status == -1 <==> NotBefore(t, orderId, |RightPath(t)|))
              && (status == -1 ==> forall o :: o in rem ==> o.canceled == old(o.canceled))
              && forall i: nat :: FirstOnPath(t, orderId, i) ==>
                   && RightPath(t)[i].canceled
                   && forall o :: o in rem && o != RightPath(t)[i] ==> o.canceled == old(o.canceled)
    {
      TargetExactly(if isBuy then buyOrders.Value() else sellOrders.Value(), orderId);
      CancelCharacterised(if isBuy then buyOrders.Value() else sellOrders.Value(), orderId);
      var order := FindToCancel(orderId, isBuy);
      if order == null {
        return -1;
      }
      MarkCanceled(order);
      return 0;
    }

    /** The walk of a cancel request down one tree. */
    method FindToCancel(orderId: string, isBuy: bool) returns (order: Order?)
      requires Valid()
      ensures var target := CancelTarget(if isBuy then View().buys else View().sells, orderId);
              if order == null then target.None? else target.Some? && target.value == order && order in rem
    {
      var tree := if isBuy then buyOrders else sellOrders;
      var current := tree.root;
      ghost var c := tree.shape;
      while current != null
        invariant Linked(current, c) && Nodes(c) <= tree.Repr
        invariant Filed(Inorder(Erase(c)), isBuy, rem)
        invariant CancelTarget(Erase(c), orderId) == CancelTarget(tree.Value(), orderId)
        decreases c
      {
        RootFiled(Erase(c), isBuy, rem);
        if current.order.orderId == orderId {
          return current.order;
        }
        var cmp := CompareNodes(current.price, current.timestamp, current.order.price, current.order.timestamp, isBuy);
        var left, right := current.left, current.right;
        ghost var l, r := c.left, c.right;
        current, c := if cmp < 0 then left else right, if cmp < 0 then l else r;
      }
      return null;
    }

    method MarkCanceled(order: Order)
      requires InStep() && order in rem
      modifies this`canceled, order`canceled
      ensures InStep() && canceled == old(canceled) + {order}
    {
      order.Cancel();
      canceled := canceled + {order};
    }

    /** The orders of one side in ascending order of their keys, as a traversal hands them to its callback. */
    method TraverseOrders(isBuy: bool) returns (visited: seq<Order>)
      requires Valid()
      ensures visited == if isBuy then PoolOf(View()).bids else PoolOf(View()).asks
      ensures forall i :: 0 <= i < |visited| ==> visited[i] in rem && visited[i].isBuy == isBuy
    {
      PoolFacts(View());
      if isBuy {
        visited := buyOrders.Traverse();
      } else {
        visited := sellOrders.Traverse();
      }
    }

    /** The open quantity of one side at a price. */
    method GetQuantityAtPrice(price: real, isBuy: bool) returns (total: int)
      requires Valid()
      ensures WellSided(PoolOf(View()))
      ensures total == QuantityAt(if isBuy then PoolOf(View()).bids else PoolOf(View()).asks, price, rem, canceled)
    {
      PoolFacts(View());
      var visited := TraverseOrders(isBuy);
      total := CountQuantity(visited, price);
    }

    /** The counting callback applied along a traversal. */
    method CountQuantity(visited: seq<Order>, price: real) returns (total: int)
      requires InStep() && forall i :: 0 <= i < |visited| ==> visited[i] in rem
      ensures total == QuantityAt(visited, price, rem, canceled)
    {
      total := 0;
      for i := 0 to |visited|
        invariant total == QuantityAt(visited[..i], price, rem, canceled)
      {
        var order := visited[i];
        assert visited[..i + 1] == visited[..i] + [order];
        QuantityAtConcat(visited[..i], [order], price, rem, canceled);
        if order.price == price && !order.canceled {
          total := total + order.remaining;
        }
      }
      assert visited[..|visited|] == visited;
    }
  }

  /** The test of the source, on the objects. */
  predicate IsMatchPossible(b: Order?, a: Order?)
    reads b, a
  {
    if b == null || a == null then false
    else if b.canceled || a.canceled then false
    else if b.symbol != a.symbol then false
    else if b.price < a.price then false
    else if b.remaining <= 0 || a.remaining <= 0 then false
    else true
  }
}
