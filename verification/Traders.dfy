/** Traders and trade records on the heap: src/trading_engine/trader.c and src/trading_engine/trade.c.

    Balances change by the functions Reserve and Credited, over which Money proves its theorems. */
module Traders {
  import opened Amounts
  import opened Orders
  import opened Matching
  import opened BookModel
  import opened Money
  import Books = OrderBook

  const MAX_TRADER_ID_LENGTH := 64
  const MAX_TRADER_NAME_LENGTH := 128

  class Trader {
    const traderId: string
    const name: string
    var balance: real

    constructor (traderId: string, name: string, balance: real)
      ensures this.traderId == traderId && this.name == name && this.balance == balance
    {
      this.traderId, this.name, this.balance := traderId, name, balance;
    }

    /** Reserves the cost of a bid and hands the order to the book; refuses another trader's order and a bid
        that costs more than the balance. */
    method PlaceOrder(book: Books.OrderBook, order: Order) returns (status: int)
      requires book.Valid()
      modifies this`balance, book`rem, book`canceled
      modifies book.buyOrders, book.buyOrders.Repr, book.sellOrders, book.sellOrders.Repr
      ensures book.Valid()
      // Taken exactly when the order is the trader's own and a bid is affordable; a bid then costs its whole price.
      ensures status == 0 <==>
              traderId == order.traderId && (order.isBuy ==> Cost(order.price, order.quantity) <= old(balance))
      ensures status == 0 ==>
                && balance == old(balance) - (if order.isBuy then Cost(order.price, order.quantity) else 0.0)
                && order in book.rem && book.rem[order] == order.remaining
      ensures match Reserve(traderId, old(balance), order)
              case None => status == -1 && balance == old(balance) && book.View() == old(book.View())
              case Some(left) =>
                && status == 0 && balance == left
                && book.View() == AddOrder(old(book.View()), order, order.remaining, order.canceled)
    {
      if traderId != order.traderId {
        return -1;
      }
      if order.isBuy {
        var required := Cost(order.price, order.quantity);
        if required > balance {
          return -1;
        }
        balance := balance - required;
      }
      assert book.TreesValid() && book.InStep();
      status := book.AddOrder(order);
    }

    /** Adds an amount, or changes nothing when the balance would go negative. */
    method UpdateBalance(amount: real)
      modifies this`balance
      ensures balance == if old(balance) + amount < 0.0 then old(balance) else old(balance) + amount
      ensures balance == Credited(old(balance), amount)
    {
      var newBalance := balance + amount;
      if newBalance < 0.0 {
        return;
      }
      balance := newBalance;
    }
  }

  /** Creates a trader unless the balance is negative or a name is too long. */
  method CreateTrader(traderId: string, name: string, balance: real) returns (trader: Trader?)
    ensures trader == null <==> balance < 0.0 || |traderId| >= MAX_TRADER_ID_LENGTH || |name| >= MAX_TRADER_NAME_LENGTH
    ensures trader != null ==> 
              fresh(trader) && trader.traderId == traderId && trader.name == name && trader.balance == balance >= 0.0
  {
    if balance < 0.0 {
      return null;
    }
    if |traderId| >= MAX_TRADER_ID_LENGTH || |name| >= MAX_TRADER_NAME_LENGTH {
      return null;
    }
    trader := new Trader(traderId, name, balance);
  }

  datatype TradeRecord = TradeRecord(buyOrderId: string, sellOrderId: string, price: real, quantity: int)

  function CreateTrade(buyOrderId: string, sellOrderId: string, price: real, quantity: int): Option<TradeRecord> {
    if price <= 0.0 then None
    else if quantity <= 0 then None
    else if |buyOrderId| >= MAX_ORDER_ID_LENGTH || |sellOrderId| >= MAX_ORDER_ID_LENGTH then None
    else Some(TradeRecord(buyOrderId, sellOrderId, price, quantity))
  }

  /** A record can be made exactly of a positive price and quantity and short ids, which is when Money counts the trade
      as credited, and holds what it is made of. */
  lemma RecordableTrades(t: Trade)
    ensures CreateTrade(t.buy.orderId, t.sell.orderId, t.price, t.quantity).Some? <==> Recordable(t)
    ensures Recordable(t) <==> t.price > 0.0 && t.quantity > 0 && |t.buy.orderId| < 64 && |t.sell.orderId| < 64
    ensures Recordable(t) ==>
              CreateTrade(t.buy.orderId, t.sell.orderId, t.price, t.quantity).value ==
              TradeRecord(t.buy.orderId, t.sell.orderId, t.price, t.quantity)
  {
  }

  /** Credits the seller; the buyer paid when placing the order. */
  method ExecuteRecord(trade: TradeRecord, buyer: Trader, seller: Trader) returns (status: int)
    modifies seller`balance
    ensures status == 0 && seller.balance == Credited(old(seller.balance), Cost(trade.price, trade.quantity))
    ensures old(seller.balance) >= 0.0 && Cost(trade.price, trade.quantity) >= 0.0 ==>
              seller.balance == old(seller.balance) + Cost(trade.price, trade.quantity)
    ensures buyer != seller ==> buyer.balance == old(buyer.balance)
  {
    seller.UpdateBalance(Cost(trade.price, trade.quantity));
    return 0;
  }
}
