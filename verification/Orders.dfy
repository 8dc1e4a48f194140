/** Orders as src/trading_engine/order.c keeps them.

    The fields fixed when an order is created are constants; only the remaining
    quantity and the cancellation mark change afterwards. */
module Orders {

  const MAX_ID_LENGTH := 64
  const MAX_SYMBOL_LENGTH := 16

  /** What a tree sorts by: the price, then the time stamp. */
  datatype Key = Key(price: real, time: int)

  predicate Less(a: Key, b: Key) {
    a.price < b.price || (a.price == b.price && a.time < b.time)
  }

  class Order {
    const orderId: string
    const traderId: string
    const symbol: string
    const price: real
    const quantity: int
    const isBuy: bool
    const timestamp: int
    var remaining: int
    var canceled: bool

    constructor (orderId: string, traderId: string, symbol: string, price: real, quantity: int,
                 isBuy: bool, timestamp: int)
      ensures this.orderId == orderId && this.traderId == traderId && this.symbol == symbol
      ensures this.price == price && this.quantity == quantity && this.isBuy == isBuy
      ensures this.timestamp == timestamp
      ensures remaining == quantity && !canceled
    {
      this.orderId, this.traderId, this.symbol := orderId, traderId, symbol;
      this.price, this.quantity, this.isBuy := price, quantity, isBuy;
      this.timestamp := timestamp;
      remaining, canceled := quantity, false;
    }

    /** The key under which the order book files this order. */
    function SortKey(): Key {
      Key(price, timestamp)
    }

    /** Takes `amount` off the remaining quantity, or refuses and changes nothing. */
    method ReduceQuantity(amount: int) returns (status: int)
      modifies this`remaining
      ensures status == if 0 <= amount <= old(remaining) then 0 else -1
      ensures remaining == if status == 0 then old(remaining) - amount else old(remaining)
    {
      if amount < 0 {
        return -1;
      }
      if amount > remaining {
        return -1;
      }
      remaining := remaining - amount;
      return 0;
    }

    method Cancel()
      modifies this`canceled
      ensures canceled
    {
      if canceled {
        return;
      }
      canceled := true;
    }
  }

  /** Creates an order unless an identifier is too long for its buffer. The clock reading is a parameter. */
  method CreateOrder(orderId: string, traderId: string, symbol: string, price: real, quantity: int,
                     isBuy: bool, now: int) returns (order: Order?)
    ensures order == null <==>
            |orderId| >= MAX_ID_LENGTH || |traderId| >= MAX_ID_LENGTH || |symbol| >= MAX_SYMBOL_LENGTH
    ensures order != null ==>
              && fresh(order)
              && order.orderId == orderId && order.traderId == traderId && order.symbol == symbol
              && order.price == price && order.quantity == quantity && order.isBuy == isBuy
              && order.timestamp == now && order.remaining == quantity && !order.canceled
  {
    if |orderId| >= MAX_ID_LENGTH || |traderId| >= MAX_ID_LENGTH || |symbol| >= MAX_SYMBOL_LENGTH {
      return null;
    }
    order := new Order(orderId, traderId, symbol, price, quantity, isBuy, now);
  }

  /** The declared priority of orders on one side of a book: negative when `a` goes first. */
  function OrderCompare(a: Order, b: Order): (r: int)
    ensures r == 0 <==> a.SortKey() == b.SortKey()
  {
    if a.price != b.price then
      if a.isBuy then (if a.price > b.price then -1 else 1)
      else (if a.price < b.price then -1 else 1)
    else if a.timestamp != b.timestamp then
      if a.timestamp < b.timestamp then -1 else 1
    else 0
  }
}
