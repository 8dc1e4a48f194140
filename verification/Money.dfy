/** Traders' money: src/trading_engine/trader.c and src/trading_engine/trade.c over the order book.

    A buyer's funds are reserved at the limit price when the order is placed, a seller is credited at the
    trade price. The matching loop does not itself execute trades; the market below composes the two,
    executing every logged trade after each matching run. */
module Money {
  import opened Amounts
  import opened Orders
  import opened AvlSpec
  import opened Matching
  import opened BookModel

  const MAX_ORDER_ID_LENGTH := 64

  type Balances = map<string, real>

  // ----- one trader -----

  /** The balance left after placing an order, None when the order is refused. */
  function Reserve(traderId: string, balance: real, o: Order): (r: Option<real>)
    ensures r.Some? && balance >= 0.0 ==> r.value >= 0.0
    ensures r.Some? <==> traderId == o.traderId && (o.isBuy ==> Cost(o.price, o.quantity) <= balance)
    ensures r.Some? ==> r.value == balance - if o.isBuy then Cost(o.price, o.quantity) else 0.0
  {
    if traderId != o.traderId then None
    else if !o.isBuy then Some(balance)
    else if Cost(o.price, o.quantity) > balance then None
    else Some(balance - Cost(o.price, o.quantity))
  }

  /** The balance after an update, which is refused when it would go negative. */
  function Credited(balance: real, amount: real): (r: real)
    ensures balance >= 0.0 ==> r >= 0.0
  {
    if balance + amount < 0.0 then balance else balance + amount
  }

  /** Whether a trade record can be made of a trade. */
  predicate Recordable(t: Trade) {
    && t.price > 0.0 && t.quantity > 0
    && |t.buy.orderId| < MAX_ORDER_ID_LENGTH && |t.sell.orderId| < MAX_ORDER_ID_LENGTH
  }

  // ----- sums -----

  function Total(ids: seq<string>, bal: Balances): real
    requires forall i :: 0 <= i < |ids| ==> ids[i] in bal
  {
    if ids == [] then 0.0 else bal[ids[0]] + Total(ids[1..], bal)
  }

  /** Limit price times remaining quantity over a sequence of bids. */
  function Reserved(s: seq<Order>, rem: Remaining): real
    requires forall i :: 0 <= i < |s| ==> s[i] in rem
  {
    if s == [] then 0.0 else Cost(s[0].price, rem[s[0]]) + Reserved(s[1..], rem)
  }

  /** What the buyers of the trades had reserved for them. */
  function BuyValue(log: seq<Trade>): real {
    if log == [] then 0.0 else Cost(log[0].buy.price, log[0].quantity) + BuyValue(log[1..])
  }

  /** What the sellers of the trades are credited with. */
  function SellValue(log: seq<Trade>): real {
    if log == [] then 0.0
    else (if Recordable(log[0]) then Cost(log[0].price, log[0].quantity) else 0.0) + SellValue(log[1..])
  }

  /** The difference between limit and trade price, which nobody is paid. */
  function Improvement(log: seq<Trade>): real {
    if log == [] then 0.0
    else Cost(log[0].buy.price, log[0].quantity) - Cost(log[0].price, log[0].quantity) + Improvement(log[1..])
  }

  /** The value of trades of which no record can be made, so that no seller is credited. */
  function Uncredited(log: seq<Trade>): real {
    if log == [] then 0.0
    else (if Recordable(log[0]) then 0.0 else Cost(log[0].price, log[0].quantity)) + Uncredited(log[1..])
  }

  lemma {:induction false} ValueSplits(log: seq<Trade>)
    ensures BuyValue(log) == SellValue(log) + Improvement(log) + Uncredited(log)
  {
    if log != [] {
      ValueSplits(log[1..]);
    }
  }

  lemma {:induction false} ValueConcat(a: seq<Trade>, b: seq<Trade>)
    ensures Improvement(a + b) == Improvement(a) + Improvement(b)
    ensures Uncredited(a + b) == Uncredited(a) + Uncredited(b)
  {
    if a == [] {
      assert a + b == b;
    } else {
      assert (a + b)[1..] == a[1..] + b;
      ValueConcat(a[1..], b);
    }
  }

  lemma {:induction false} TotalSet(ids: seq<string>, bal: Balances, id: string, v: real)
    requires forall i :: 0 <= i < |ids| ==> ids[i] in bal
    requires forall i, j :: 0 <= i < j < |ids| ==> ids[i] != ids[j]
    requires id in bal
    ensures Total(ids, bal[id := v]) == Total(ids, bal) + if id in ids then v - bal[id] else 0.0
  {
    if ids != [] {
      TotalSet(ids[1..], bal, id, v);
      if ids[0] == id {
        assert id !in ids[1..];
      }
    }
  }

  lemma {:induction false} ReservedConcat(a: seq<Order>, b: seq<Order>, rem: Remaining)
    requires forall i :: 0 <= i < |a| ==> a[i] in rem
    requires forall i :: 0 <= i < |b| ==> b[i] in rem
    ensures Reserved(a + b, rem) == Reserved(a, rem) + Reserved(b, rem)
  {
    if a == [] {
      assert a + b == b;
    } else {
      assert (a + b)[1..] == a[1..] + b;
      ReservedConcat(a[1..], b, rem);
    }
  }

  lemma {:induction false} ReservedUnchanged(s: seq<Order>, rem: Remaining, rem': Remaining)
    requires forall i :: 0 <= i < |s| ==> s[i] in rem && s[i] in rem' && rem[s[i]] == rem'[s[i]]
    ensures Reserved(s, rem) == Reserved(s, rem')
  {
    if s != [] {
      ReservedUnchanged(s[1..], rem, rem');
    }
  }

  // ----- what matching does to the reserved funds -----

  lemma CostSplits(price: real, q: int, r: int)
    ensures Cost(price, q) == Cost(price, r) + Cost(price, q - r)
  {
  }

  /** A round frees the bid's limit price times the traded quantity. */
  lemma {:induction false} RoundReserved(p: Pool, canceled: set<Order>)
    requires WellSided(p) && Ascending(p.bids) && CanMatch(p, canceled)
    ensures var r, t := Round(p, canceled), RoundTrade(p, canceled);
            Reserved(p.bids, p.rem) == Reserved(r.bids, r.rem) + Cost(t.buy.price, t.quantity)
  {
    var r, t := Round(p, canceled), RoundTrade(p, canceled);
    var b, front := BestBid(p), p.bids[..|p.bids| - 1];
    assert p.bids == front + [b];
    assert b.isBuy && !BestAsk(p).isBuy;
    ReservedConcat(front, [b], p.rem);
    ReservedConcat(front, [b], r.rem);
    ReservedUnchanged(front, p.rem, r.rem);
    CostSplits(b.price, p.rem[b], t.quantity);
  }

  lemma {:induction false} MatchReserved(p: Pool, canceled: set<Order>)
    requires WellSided(p) && Ascending(p.bids) && Ascending(p.asks)
    ensures var out := MatchLists(p, canceled);
            && WellSided(out.pool)
            && Reserved(p.bids, p.rem) == Reserved(out.pool.bids, out.pool.rem) + BuyValue(out.log)
    decreases |p.bids| + |p.asks|
  {
    if CanMatch(p, canceled) {
      RoundReserved(p, canceled);
      RoundAscending(p, canceled);
      MatchReserved(Round(p, canceled), canceled);
      assert MatchLists(p, canceled).log[1..] == MatchLists(Round(p, canceled), canceled).log;
    }
  }

  // ----- the market -----

  /** `stranded` adds up what was reserved for placements without a resting quantity to match it. */
  datatype Market = Market(book: Book, ids: seq<string>, balances: Balances, stranded: real)

  datatype MarketOp =
    | Place(traderId: string, order: Order)
    | Settle
    | Withdraw(orderId: string, isBuy: bool)

  /** Every trader has one non-negative balance; every order handed to the book belongs to a trader. */
  ghost predicate Sound(m: Market) {
    && WellFormed(m.book) && Ledger(m.book)
    && (forall i, j :: 0 <= i < j < |m.ids| ==> m.ids[i] != m.ids[j])
    && (forall i :: 0 <= i < |m.ids| ==> m.ids[i] in m.balances && m.balances[m.ids[i]] >= 0.0)
    && (forall o :: o in m.book.rem ==> o.traderId in m.ids)
  }

  /** The money in traders' balances. */
  function Cash(m: Market): real
    requires forall i :: 0 <= i < |m.ids| ==> m.ids[i] in m.balances
  {
    Total(m.ids, m.balances)
  }

  /** The money reserved for resting bids. */
  ghost function Resting(m: Market): real
    requires WellFormed(m.book)
  {
    PoolFacts(m.book);
    Reserved(TreeOrders(m.book.buys), m.book.rem)
  }

  /** The whole money, with what the engine keeps to itself. */
  ghost function Wealth(m: Market): real
    requires Sound(m)
  {
    Cash(m) + Resting(m) + Improvement(m.book.log) + Uncredited(m.book.log) + m.stranded
  }

  /** What a buyer reserves for an order beyond the resting quantity that the placement adds. */
  ghost function Stranding(bk: Book, o: Order): real {
    if !o.isBuy then 0.0
    else if !Accepts(bk, o) then Cost(o.price, o.quantity)
    else if o in bk.rem then Cost(o.price, o.quantity) - Cost(o.price, bk.rem[o])
    else 0.0
  }

  ghost function PlaceOrder(m: Market, traderId: string, o: Order): Market
    requires Sound(m)
  {
    if traderId !in m.ids then m
    else
      match Reserve(traderId, m.balances[traderId], o)
      case None => m
      case Some(left) =>
        Market(Step(m.book, Add(o)), m.ids, m.balances[traderId := left], m.stranded + Stranding(m.book, o))
  }

  /** trade_create followed by trade_execute: the seller is credited, the buyer has paid on placing. */
  function ExecuteTrade(bal: Balances, t: Trade): Balances
    requires t.sell.traderId in bal
  {
    if !Recordable(t) then bal
    else bal[t.sell.traderId := Credited(bal[t.sell.traderId], Cost(t.price, t.quantity))]
  }

  function ExecuteAll(bal: Balances, trades: seq<Trade>): (r: Balances)
    requires forall i :: 0 <= i < |trades| ==> trades[i].sell.traderId in bal
    ensures r.Keys == bal.Keys
    decreases |trades|
  {
    if trades == [] then bal else ExecuteAll(ExecuteTrade(bal, trades[0]), trades[1..])
  }

  /** A matching run, then the execution of each trade it logged. */
  function SettleMatches(m: Market): Market
    requires Sound(m)
  {
    var book := MatchTrees(m.book);
    TradersKnown(m);
    m.(book := book, balances := ExecuteAll(m.balances, book.log[|m.book.log|..]))
  }

  lemma {:induction false} TradersKnown(m: Market)
    requires Sound(m)
    ensures var book := MatchTrees(m.book);
            && |m.book.log| <= |book.log| && Ledger(book) && WellFormed(book) && book.rem.Keys == m.book.rem.Keys
            && forall i :: 0 <= i < |book.log| - |m.book.log| ==>
                 book.log[|m.book.log|..][i].sell.traderId in m.ids
  {
    MatchTreesRefines(m.book);
    MatchLedger(m.book);
  }

  ghost function MarketStep(m: Market, op: MarketOp): Market
    requires Sound(m)
  {
    match op
    case Place(id, o) => PlaceOrder(m, id, o)
    case Settle => SettleMatches(m)
    case Withdraw(id, isBuy) => m.(book := CancelOrder(m.book, id, isBuy))
  }

  // ----- placing -----

  /** An accepted bid adds its limit price times its remaining quantity to the reserved funds, an ignored one
      nothing. */
  lemma {:induction false} AddReserved(bk: Book, o: Order)
    requires WellFormed(bk)
    ensures WellFormed(Step(bk, Add(o)))
    ensures var bk' := Step(bk, Add(o));
            && (forall i :: 0 <= i < |TreeOrders(bk.buys)| ==> TreeOrders(bk.buys)[i] in bk.rem)
            && (forall i :: 0 <= i < |TreeOrders(bk'.buys)| ==> TreeOrders(bk'.buys)[i] in bk'.rem)
            && Reserved(TreeOrders(bk'.buys), bk'.rem) ==
               Reserved(TreeOrders(bk.buys), bk.rem) +
               if o.isBuy && Accepts(bk, o) then Cost(o.price, bk'.rem[o]) else 0.0
  {
    StepWellFormed(bk, Add(o));
    var bk' := Step(bk, Add(o));
    PoolFacts(bk);
    PoolFacts(bk');
    var s := TreeOrders(bk.buys);
    if o.isBuy && Accepts(bk, o) {
      var n := InsertedPosition(bk.buys, o);
      AcceptedIsNew(bk, o);
      ReservedInsert(s, n, o, bk.rem, bk'.rem);
    } else {
      if o.isBuy {
        InsertInorder(bk.buys, o.SortKey(), o);
      }
      ReservedUnchanged(s, bk.rem, bk'.rem);
    }
  }

  lemma {:induction false} ReservedInsert(s: seq<Order>, n: nat, o: Order, rem: Remaining, rem': Remaining)
    requires n <= |s| && o !in s && o in rem'
    requires forall i :: 0 <= i < |s| ==> s[i] in rem && s[i] in rem' && rem[s[i]] == rem'[s[i]]
    ensures Reserved(s[..n] + [o] + s[n..], rem') == Reserved(s, rem) + Cost(o.price, rem'[o])
  {
    ReservedConcat(s[..n] + [o], s[n..], rem');
    ReservedConcat(s[..n], [o], rem');
    assert s == s[..n] + s[n..];
    ReservedConcat(s[..n], s[n..], rem');
    ReservedUnchanged(s, rem, rem');
  }

  lemma {:induction false} InsertedPosition(t: Tree, o: Order) returns (n: nat)
    requires Avl(t) && !HasKey(Inorder(t), o.SortKey())
    ensures n <= |TreeOrders(t)|
    ensures TreeOrders(Insert(t, o.SortKey(), o)) == TreeOrders(t)[..n] + [o] + TreeOrders(t)[n..]
  {
    InsertInorder(t, o.SortKey(), o);
    n := WithEntryPosition(Inorder(t), Entry(o.SortKey(), o));
  }

  /** An order whose key is free is not resting. */
  lemma {:induction false} AcceptedIsNew(bk: Book, o: Order)
    requires WellFormed(bk) && Accepts(bk, o)
    ensures o !in TreeOrders(if o.isBuy then bk.buys else bk.sells)
  {
  }

  lemma {:induction false} PlaceKeeps(m: Market, id: string, o: Order)
    requires Sound(m)
    ensures Sound(PlaceOrder(m, id, o))
    ensures Wealth(PlaceOrder(m, id, o)) == Wealth(m)
  {
    if id in m.ids && Reserve(id, m.balances[id], o).Some? {
      var left := Reserve(id, m.balances[id], o).value;
      assert Sound(PlaceOrder(m, id, o)) by {
        StepWellFormed(m.book, Add(o));
        AddLedger(m.book, o);
      }
      AddReserved(m.book, o);
      TotalSet(m.ids, m.balances, id, left);
    }
  }

  // ----- settling -----

  /** Executing trades moves their recordable value into the sellers' balances. */
  lemma {:induction false} ExecuteAllTotals(ids: seq<string>, bal: Balances, trades: seq<Trade>)
    requires forall i, j :: 0 <= i < j < |ids| ==> ids[i] != ids[j]
    requires forall i :: 0 <= i < |ids| ==> ids[i] in bal && bal[ids[i]] >= 0.0
    requires forall i :: 0 <= i < |trades| ==> trades[i].sell.traderId in ids
    ensures var bal' := ExecuteAll(bal, trades);
            && (forall i :: 0 <= i < |ids| ==> ids[i] in bal' && bal'[ids[i]] >= 0.0)
            && Total(ids, bal') == Total(ids, bal) + SellValue(trades)
    decreases |trades|
  {
    if trades != [] {
      var t := trades[0];
      var bal' := ExecuteTrade(bal, t);
      if Recordable(t) {
        CostPositive(t.price, t.quantity);
        TotalSet(ids, bal, t.sell.traderId, bal'[t.sell.traderId]);
      }
      ExecuteAllTotals(ids, bal', trades[1..]);
    }
  }

  lemma CostPositive(price: real, quantity: int)
    requires price > 0.0 && quantity > 0
    ensures Cost(price, quantity) > 0.0
  {
  }

  /** What settling does to the balances and to the reserved funds. */
  lemma {:induction false} SettleMoves(m: Market) returns (trades: seq<Trade>)
    requires Sound(m)
    ensures var m' := SettleMatches(m);
            && WellFormed(m'.book) && m'.book.log == m.book.log + trades
            && (forall i :: 0 <= i < |m.ids| ==> m.ids[i] in m'.balances && m'.balances[m.ids[i]] >= 0.0)
            && Cash(m') == Cash(m) + SellValue(trades)
            && Resting(m) == Resting(m') + BuyValue(trades)
  {
    TradersKnown(m);
    PoolFacts(m.book);
    MatchTreesRefines(m.book);
    trades := MatchLists(PoolOf(m.book), m.book.canceled).log;
    assert MatchTrees(m.book).log[|m.book.log|..] == trades;
    ExecuteAllTotals(m.ids, m.balances, trades);
    MatchReserved(PoolOf(m.book), m.book.canceled);
  }

  lemma {:induction false} SettleKeeps(m: Market)
    requires Sound(m)
    ensures Sound(SettleMatches(m))
    ensures Wealth(SettleMatches(m)) == Wealth(m)
  {
    var trades := SettleMoves(m);
    assert Sound(SettleMatches(m)) by {
      TradersKnown(m);
    }
    ValueSplits(trades);
    ValueConcat(m.book.log, trades);
  }

  lemma {:induction false} WithdrawKeeps(m: Market, id: string, isBuy: bool)
    requires Sound(m)
    ensures Sound(MarketStep(m, Withdraw(id, isBuy)))
    ensures Wealth(MarketStep(m, Withdraw(id, isBuy))) == Wealth(m)
  {
  }

  lemma {:induction false} MarketStepKeeps(m: Market, op: MarketOp)
    requires Sound(m)
    ensures Sound(MarketStep(m, op))
    ensures Wealth(MarketStep(m, op)) == Wealth(m)
  {
    match op
    case Place(id, o) => PlaceKeeps(m, id, o);
    case Settle => SettleKeeps(m);
    case Withdraw(id, isBuy) => WithdrawKeeps(m, id, isBuy);
  }

  ghost function MarketRun(m: Market, ops: seq<MarketOp>): (r: Market)
    requires Sound(m)
    ensures Sound(r) && r.ids == m.ids
    decreases |ops|
  {
    if ops == [] then m
    else
      MarketStepKeeps(m, ops[0]);
      MarketRun(MarketStep(m, ops[0]), ops[1..])
  }

  /** Over every run no balance goes negative, and the traders' balances, the funds reserved for resting bids, the
      price improvement, the uncredited trades and the stranded reservations together stay what they were. */
  lemma {:induction false} MoneyConserved(m: Market, ops: seq<MarketOp>)
    requires Sound(m)
    ensures Sound(MarketRun(m, ops)) && Wealth(MarketRun(m, ops)) == Wealth(m)
    decreases |ops|
  {
    if ops != [] {
      MarketStepKeeps(m, ops[0]);
      MoneyConserved(MarketStep(m, ops[0]), ops[1..]);
    }
  }

  // ----- solvency -----

  ghost predicate Positive(m: Market) {
    m.stranded >= 0.0 && forall o :: o in m.book.rem ==> o.price > 0.0 && o.quantity > 0
  }

  predicate PlacesPositive(ops: seq<MarketOp>) {
    forall i :: 0 <= i < |ops| && ops[i].Place? ==> ops[i].order.price > 0.0 && ops[i].order.quantity > 0
  }

  lemma {:induction false} StepPositive(m: Market, op: MarketOp)
    requires Sound(m) && Positive(m)
    requires op.Place? ==> op.order.price > 0.0 && op.order.quantity > 0
    ensures Positive(MarketStep(m, op))
  {
    match op
    case Place(id, o) =>
      CostPositive(o.price, o.quantity);
      if o in m.book.rem {
        assert Accounted(m.book, o);
        CostSplits(o.price, o.quantity, m.book.rem[o]);
        CostNonNegative(o.price, o.quantity - m.book.rem[o]);
      }
    case Settle => TradersKnown(m);
    case Withdraw(_, _) =>
  }

  lemma CostNonNegative(price: real, quantity: int)
    requires price >= 0.0 && quantity >= 0
    ensures Cost(price, quantity) >= 0.0
  {
  }

  lemma {:induction false} RunPositive(m: Market, ops: seq<MarketOp>)
    requires Sound(m) && Positive(m) && PlacesPositive(ops)
    ensures Positive(MarketRun(m, ops))
    decreases |ops|
  {
    if ops != [] {
      StepPositive(m, ops[0]);
      MarketStepKeeps(m, ops[0]);
      RunPositive(MarketStep(m, ops[0]), ops[1..]);
    }
  }

  lemma {:induction false} LeaksNonNegative(log: seq<Trade>)
    requires forall i :: 0 <= i < |log| ==> Fair(log[i]) && log[i].price > 0.0
    ensures Improvement(log) >= 0.0 && Uncredited(log) >= 0.0
  {
    if log != [] {
      var t := log[0];
      CostNonNegative(t.price, t.quantity);
      CostNonNegative(t.buy.price - t.price, t.quantity);
      assert Cost(t.buy.price, t.quantity) - Cost(t.price, t.quantity) == Cost(t.buy.price - t.price, t.quantity);
      LeaksNonNegative(log[1..]);
    }
  }

  lemma {:induction false} ReservedNonNegative(s: seq<Order>, rem: Remaining)
    requires forall i :: 0 <= i < |s| ==> s[i] in rem && s[i].price > 0.0 && rem[s[i]] >= 0
    ensures Reserved(s, rem) >= 0.0
  {
    if s != [] {
      CostNonNegative(s[0].price, rem[s[0]]);
      ReservedNonNegative(s[1..], rem);
    }
  }

  /** In a market of positive prices and quantities nothing that resting bids reserve is negative. */
  lemma {:induction false} RestingPositive(m: Market)
    requires Sound(m) && Positive(m)
    ensures forall i :: 0 <= i < |TreeOrders(m.book.buys)| ==>
              var o := TreeOrders(m.book.buys)[i];
              o in m.book.rem && o.price > 0.0 && m.book.rem[o] >= 0
    ensures Resting(m) >= 0.0
  {
    PoolFacts(m.book);
    var s := TreeOrders(m.book.buys);
    forall i | 0 <= i < |s| ensures s[i].price > 0.0 && m.book.rem[s[i]] >= 0 {
      assert Accounted(m.book, s[i]);
    }
    ReservedNonNegative(s, m.book.rem);
  }

  /** With positive prices and quantities, over every run balances and the funds reserved for resting bids never add
      up to more than the whole money at its start. */
  lemma {:induction false} RunWithinWealth(m: Market, ops: seq<MarketOp>)
    requires Sound(m) && Positive(m) && PlacesPositive(ops)
    ensures var m' := MarketRun(m, ops);
            Positive(m') && Resting(m') >= 0.0 && Cash(m') + Resting(m') <= Wealth(m)
  {
    var m' := MarketRun(m, ops);
    MoneyConserved(m, ops);
    RunPositive(m, ops);
    RestingPositive(m');
    forall i | 0 <= i < |m'.book.log| ensures Fair(m'.book.log[i]) && m'.book.log[i].price > 0.0 {
      assert m'.book.log[i].sell in m'.book.rem;
    }
    LeaksNonNegative(m'.book.log);
  }

  /** So over every run from an empty book they never add up to more than the traders brought in. */
  lemma {:induction false} MarketIsSolvent(m: Market, ops: seq<MarketOp>)
    requires Sound(m) && m.book == EMPTY_BOOK && m.stranded == 0.0 && PlacesPositive(ops)
    ensures var m' := MarketRun(m, ops);
            && Resting(m') >= 0.0
            && Cash(m') + Resting(m') <= Cash(m)
            && forall i :: 0 <= i < |m.ids| ==> m.ids[i] in m'.balances && m'.balances[m.ids[i]] >= 0.0
  {
    RunWithinWealth(m, ops);
  }

  // ----- funds of canceled bids -----

  lemma {:induction false} MarketFreezes(m: Market, ops: seq<MarketOp>, o: Order)
    requires Sound(m) && IsDead(m.book, o)
    ensures Frozen(m.book, MarketRun(m, ops).book, o)
    decreases |ops|
  {
    if ops != [] {
      var m1 := MarketStep(m, ops[0]);
      MarketStepKeeps(m, ops[0]);
      MarketStepFreezes(m, ops[0], o);
      MarketFreezes(m1, ops[1..], o);
      FrozenChains(m.book, m1.book, MarketRun(m, ops).book, o);
    }
  }

  lemma {:induction false} MarketStepFreezes(m: Market, op: MarketOp, o: Order)
    requires Sound(m) && IsDead(m.book, o)
    ensures Frozen(m.book, MarketStep(m, op).book, o)
  {
    match op
    case Place(_, x) => StepFreezes(m.book, Add(x), o);
    case Settle => StepFreezes(m.book, Match, o);
    case Withdraw(id, isBuy) => StepFreezes(m.book, Cancel(id, isBuy), o);
  }

  lemma {:induction false} ReservedAtLeast(s: seq<Order>, rem: Remaining, o: Order)
    requires forall i :: 0 <= i < |s| ==> s[i] in rem && s[i].price > 0.0 && rem[s[i]] >= 0
    requires o in s
    ensures Reserved(s, rem) >= Cost(o.price, rem[o])
  {
    if s[0] == o {
      ReservedNonNegative(s[1..], rem);
    } else {
      CostNonNegative(s[0].price, rem[s[0]]);
      ReservedAtLeast(s[1..], rem, o);
    }
  }

  /** What a bid had reserved when it was canceled is never released: over every run it stays reserved for that bid, out
      of all traders' reach. */
  lemma {:induction false} CanceledFundsStay(m: Market, ops: seq<MarketOp>, o: Order)
    requires Sound(m) && Positive(m) && PlacesPositive(ops)
    requires o in TreeOrders(m.book.buys) && o in m.book.canceled
    ensures var m' := MarketRun(m, ops);
            && o in TreeOrders(m'.book.buys) && o in m.book.rem && o in m'.book.rem
            && m'.book.rem[o] == m.book.rem[o]
            && Resting(m') >= Cost(o.price, m.book.rem[o])
            && Cash(m') <= Wealth(m) - Cost(o.price, m.book.rem[o])
  {
    var m' := MarketRun(m, ops);
    PoolFacts(m.book);
    MarketFreezes(m, ops, o);
    RunWithinWealth(m, ops);
    RestingPositive(m');
    ReservedAtLeast(TreeOrders(m'.book.buys), m'.book.rem, o);
  }

  // ----- each trader's balance -----

  /** Whether a placement is taken: the trader is known, the order is its own, and a bid is affordable. */
  ghost predicate Taken(m: Market, id: string, o: Order) {
    && id in m.ids && id in m.balances && id == o.traderId
    && (o.isBuy ==> Cost(o.price, o.quantity) <= m.balances[id])
  }

  /** What an operation of the market does to its book. */
  ghost function BookOp(m: Market, op: MarketOp): seq<Op> {
    match op
    case Place(id, o) => if Taken(m, id, o) then [Add(o)] else []
    case Settle => [Match]
    case Withdraw(id, isBuy) => [Cancel(id, isBuy)]
  }

  ghost function BookOps(m: Market, ops: seq<MarketOp>): seq<Op>
    requires Sound(m)
    decreases |ops|
  {
    if ops == [] then []
    else
      MarketStepKeeps(m, ops[0]);
      BookOp(m, ops[0]) + BookOps(MarketStep(m, ops[0]), ops[1..])
  }

  lemma {:induction false} StepRunsBook(m: Market, op: MarketOp)
    requires Sound(m)
    ensures MarketStep(m, op).book == BookModel.Run(m.book, BookOp(m, op))
  {
    var ops := BookOp(m, op);
    if ops != [] {
      RunOnce(m.book, ops[0]);
      assert ops == [ops[0]];
    }
  }

  /** The book of a market goes through the run of its taken placements, matches and cancels, so every theorem about
      runs of a book holds of it. */
  lemma {:induction false} MarketRunsBook(m: Market, ops: seq<MarketOp>)
    requires Sound(m)
    ensures MarketRun(m, ops).book == BookModel.Run(m.book, BookOps(m, ops))
    decreases |ops|
  {
    if ops != [] {
      var m1 := MarketStep(m, ops[0]);
      MarketStepKeeps(m, ops[0]);
      StepRunsBook(m, ops[0]);
      MarketRunsBook(m1, ops[1..]);
      RunConcat(m.book, BookOp(m, ops[0]), BookOps(m1, ops[1..]));
    }
  }

  /** What the recordable trades bring the seller with the id. */
  function Received(trades: seq<Trade>, id: string): real {
    if trades == [] then 0.0
    else
      (if Recordable(trades[0]) && trades[0].sell.traderId == id then Cost(trades[0].price, trades[0].quantity)
       else 0.0) + Received(trades[1..], id)
  }

  lemma {:induction false} ReceivedConcat(a: seq<Trade>, b: seq<Trade>, id: string)
    ensures Received(a + b, id) == Received(a, id) + Received(b, id)
  {
    if a == [] {
      assert a + b == b;
    } else {
      assert (a + b)[1..] == a[1..] + b;
      ReceivedConcat(a[1..], b, id);
    }
  }

  /** Executing trades adds to each balance what the trader's own asks received, and nothing else. */
  lemma {:induction false} ExecuteAllPays(ids: seq<string>, bal: Balances, trades: seq<Trade>, id: string)
    requires forall i :: 0 <= i < |ids| ==> ids[i] in bal && bal[ids[i]] >= 0.0
    requires forall i :: 0 <= i < |trades| ==> trades[i].sell.traderId in ids
    requires id in ids
    ensures ExecuteAll(bal, trades)[id] == bal[id] + Received(trades, id)
    decreases |trades|
  {
    if trades != [] {
      var t := trades[0];
      if Recordable(t) {
        CostPositive(t.price, t.quantity);
      }
      ExecuteAllPays(ids, ExecuteTrade(bal, t), trades[1..], id);
    }
  }

  /** What one operation takes from the balance of the trader with the id: the cost of its own bid, when taken. */
  ghost function PaidNow(m: Market, op: MarketOp, id: string): real {
    if op.Place? && op.traderId == id && op.order.isBuy && Taken(m, id, op.order)
    then Cost(op.order.price, op.order.quantity) else 0.0
  }

  ghost function Paid(m: Market, ops: seq<MarketOp>, id: string): real
    requires Sound(m)
    decreases |ops|
  {
    if ops == [] then 0.0
    else
      MarketStepKeeps(m, ops[0]);
      PaidNow(m, ops[0], id) + Paid(MarketStep(m, ops[0]), ops[1..], id)
  }

  /** From `m` to `m'` the book logs `trades`, and the trader's balance loses `paid` and gains what its asks
      received. */
  ghost predicate Moves(m: Market, m': Market, id: string, paid: real, trades: seq<Trade>) {
    && id in m.balances && id in m'.balances && m'.book.log == m.book.log + trades
    && m'.balances[id] == m.balances[id] - paid + Received(trades, id)
  }

  lemma {:induction false} MovesChain(a: Market, b: Market, c: Market, id: string, paid1: real, trades1: seq<Trade>,
                                      paid2: real, trades2: seq<Trade>)
    requires Moves(a, b, id, paid1, trades1) && Moves(b, c, id, paid2, trades2)
    ensures Moves(a, c, id, paid1 + paid2, trades1 + trades2)
  {
    ReceivedConcat(trades1, trades2, id);
  }

  /** One operation takes from each balance the cost of the trader's own taken bid and adds what its asks received. */
  lemma {:induction false} StepBalance(m: Market, op: MarketOp, id: string) returns (trades: seq<Trade>)
    requires Sound(m) && id in m.ids
    ensures Moves(m, MarketStep(m, op), id, PaidNow(m, op, id), trades)
  {
    trades := [];
    if op.Settle? {
      TradersKnown(m);
      MatchTreesRefines(m.book);
      trades := MatchTrees(m.book).log[|m.book.log|..];
      assert MatchTrees(m.book).log == m.book.log + trades;
      SettlePays(m, trades, id);
    }
  }

  lemma {:induction false} SettlePays(m: Market, trades: seq<Trade>, id: string)
    requires Sound(m) && id in m.ids && MatchTrees(m.book).log == m.book.log + trades
    ensures SettleMatches(m).balances[id] == m.balances[id] + Received(trades, id)
  {
    TradersKnown(m);
    assert MatchTrees(m.book).log[|m.book.log|..] == trades;
    ExecuteAllPays(m.ids, m.balances, trades, id);
  }

  /** Over every run a trader's balance is what it started with, less the cost of its taken bids, plus what its asks
      received in the trades of the run. */
  lemma {:induction false} BalanceExactly(m: Market, ops: seq<MarketOp>, id: string) returns (trades: seq<Trade>)
    requires Sound(m) && id in m.ids
    ensures Moves(m, MarketRun(m, ops), id, Paid(m, ops, id), trades)
    decreases |ops|
  {
    if ops == [] {
      trades := [];
    } else {
      var m1 := MarketStep(m, ops[0]);
      MarketStepKeeps(m, ops[0]);
      assert m1.ids == m.ids;
      var first := StepBalance(m, ops[0], id);
      var rest := BalanceExactly(m1, ops[1..], id);
      MovesChain(m, m1, MarketRun(m, ops), id, PaidNow(m, ops[0], id), first, Paid(m1, ops[1..], id), rest);
      trades := first + rest;
    }
  }

  // ----- the exact gap -----

  /** Every placement is of another order, new to the book, of positive price and quantity and with a short id. */
  ghost predicate PlacesNew(m: Market, ops: seq<MarketOp>) {
    && PlacesPositive(ops)
    && (forall i :: 0 <= i < |ops| && ops[i].Place? ==>
          ops[i].order !in m.book.rem && |ops[i].order.orderId| < MAX_ORDER_ID_LENGTH)
    && (forall i, j :: 0 <= i < j < |ops| && ops[i].Place? && ops[j].Place? ==> ops[i].order != ops[j].order)
  }

  /** The cost of the bids that were paid for and then ignored, because their key was taken. */
  ghost function IgnoredCost(m: Market, ops: seq<MarketOp>): real
    requires Sound(m)
    decreases |ops|
  {
    if ops == [] then 0.0
    else
      MarketStepKeeps(m, ops[0]);
      var rest := IgnoredCost(MarketStep(m, ops[0]), ops[1..]);
      match ops[0]
      case Place(id, o) =>
        if id in m.ids && Reserve(id, m.balances[id], o).Some? && o.isBuy && !Accepts(m.book, o)
        then Cost(o.price, o.quantity) + rest else rest
      case _ => rest
  }

  ghost predicate ShortIds(m: Market) {
    forall o :: o in m.book.rem ==> o.price > 0.0 && |o.orderId| < MAX_ORDER_ID_LENGTH
  }

  lemma {:induction false} StepKnows(m: Market, op: MarketOp)
    requires Sound(m)
    ensures MarketStep(m, op).book.rem.Keys <= m.book.rem.Keys + if op.Place? then {op.order} else {}
  {
    if op.Settle? {
      TradersKnown(m);
    }
  }

  lemma {:induction false} StrandedIsIgnored(m: Market, ops: seq<MarketOp>)
    requires Sound(m) && PlacesNew(m, ops) && ShortIds(m)
    ensures MarketRun(m, ops).stranded == m.stranded + IgnoredCost(m, ops)
    ensures ShortIds(MarketRun(m, ops))
    decreases |ops|
  {
    if ops != [] {
      MarketStepKeeps(m, ops[0]);
      StepKnows(m, ops[0]);
      StrandedIsIgnored(MarketStep(m, ops[0]), ops[1..]);
    }
  }

  lemma {:induction false} AllCredited(log: seq<Trade>)
    requires forall i :: 0 <= i < |log| ==> Recordable(log[i])
    ensures Uncredited(log) == 0.0
  {
    if log != [] {
      AllCredited(log[1..]);
    }
  }

  /** When each order is placed once, what is missing from balances and reserved funds is exactly the price
      improvement of the trades and the cost of the ignored bids. */
  lemma {:induction false} ExactGap(m: Market, ops: seq<MarketOp>)
    requires Sound(m) && m.book == EMPTY_BOOK && m.stranded == 0.0 && PlacesNew(m, ops)
    ensures var m' := MarketRun(m, ops);
            Cash(m) - (Cash(m') + Resting(m')) == Improvement(m'.book.log) + IgnoredCost(m, ops)
  {
    var m' := MarketRun(m, ops);
    MoneyConserved(m, ops);
    StrandedIsIgnored(m, ops);
    forall i | 0 <= i < |m'.book.log| ensures Recordable(m'.book.log[i]) {
      assert Fair(m'.book.log[i]) && m'.book.log[i].buy in m'.book.rem && m'.book.log[i].sell in m'.book.rem;
    }
    AllCredited(m'.book.log);
  }

  lemma {:induction false} RunTwoSteps(m: Market, first: MarketOp, second: MarketOp)
    requires Sound(m)
    ensures Sound(MarketStep(m, first))
    ensures MarketRun(m, [first, second]) == MarketStep(MarketStep(m, first), second)
    ensures first.Place? && Accepts(m.book, first.order) ==>
              IgnoredCost(m, [first, second]) == IgnoredCost(MarketStep(m, first), [second])
  {
    MarketStepKeeps(m, first);
    var ops := [first, second];
    assert ops[1..] == [second];
    var m1 := MarketStep(m, first);
    MarketStepKeeps(m1, second);
    var m2 := MarketStep(m1, second);
    assert [second][1..] == [] && MarketRun(m2, []) == m2;
    assert MarketRun(m1, [second]) == m2;
    assert MarketRun(m, ops) == MarketRun(m1, ops[1..]);
  }

  /** A trader with 2, and the same trader after bidding 1 of it. */
  ghost function RichTrader(): Market {
    Market(EMPTY_BOOK, ["t"], map["t" := 2.0], 0.0)
  }

  ghost function OneBid(a: Order): Market {
    Market(Book(Node(Leaf, a.SortKey(), a, 1, Leaf), Leaf, map[a := 1], {}, []), ["t"], map["t" := 1.0], 0.0)
  }

  lemma {:induction false} FirstBid(a: Order)
    requires a.isBuy && a.traderId == "t" && a.price == 1.0 && a.quantity == 1
    ensures Sound(RichTrader()) && MarketStep(RichTrader(), Place("t", a)) == OneBid(a)
    ensures Accepts(RichTrader().book, a)
  {
    assert Cost(1.0, 1) == 1.0;
  }

  lemma {:induction false} SecondBid(a: Order, b: Order)
    requires a != b && a.isBuy && b.isBuy && a.SortKey() == b.SortKey()
    requires a.traderId == b.traderId == "t" && a.price == 1.0 && a.quantity == b.quantity == 1
    requires Sound(OneBid(a))
    ensures IgnoredCost(OneBid(a), [Place("t", b)]) == 1.0
    ensures var m := MarketStep(OneBid(a), Place("t", b));
            m.book.buys == OneBid(a).book.buys && m.book.rem == map[a := 1, b := 1] && m.balances == map["t" := 0.0]
  {
    assert Inorder(OneBid(a).book.buys) == [Entry(a.SortKey(), a)];
    MarketStepKeeps(OneBid(a), Place("t", b));
    assert [Place("t", b)][1..] == [];
    assert Cost(1.0, 1) == 1.0;
  }

  lemma {:induction false} SmallMarket(m: Market, id: string, a: Order)
    requires Sound(m) && m.ids == [id] && m.book.buys == Node(Leaf, a.SortKey(), a, 1, Leaf)
    ensures a in m.book.rem && Cash(m) == m.balances[id] && Resting(m) == Cost(a.price, m.book.rem[a])
  {
    var s := TreeOrders(m.book.buys);
    assert Inorder(m.book.buys) == [Entry(a.SortKey(), a)];
    PoolFacts(m.book);
    assert s == [a] && s[0] in m.book.rem && s[1..] == [];
    assert m.ids[0] in m.balances && m.ids[1..] == [];
    assert Total(m.ids[1..], m.balances) == 0.0 && Reserved(s[1..], m.book.rem) == 0.0;
  }

  /** A trader with 2 bids 1 twice under one key: the second bid is paid for and ignored, and 1 is gone. */
  lemma {:induction false} IgnoredBidCosts(a: Order, b: Order)
    requires a != b && a.isBuy && b.isBuy && a.SortKey() == b.SortKey()
    requires a.traderId == b.traderId == "t" && a.price == 1.0 && a.quantity == b.quantity == 1
    ensures var m, ops := RichTrader(), [Place("t", a), Place("t", b)];
            && Sound(m) && Cash(m) == 2.0 && IgnoredCost(m, ops) == 1.0
            && Cash(MarketRun(m, ops)) == 0.0 && Resting(MarketRun(m, ops)) == 1.0
  {
    FirstBid(a);
    RunTwoSteps(RichTrader(), Place("t", a), Place("t", b));
    SecondBid(a, b);
    MarketStepKeeps(OneBid(a), Place("t", b));
    SmallMarket(MarketStep(OneBid(a), Place("t", b)), "t", a);
  }

  /** Placing an order raises the money in balances exactly when it is a bid taken with a negative cost: the
      funds check lets such an order through and hands the trader its absolute cost. */
  lemma {:induction false} PlacingMints(m: Market, id: string, o: Order)
    requires Sound(m)
    ensures Sound(PlaceOrder(m, id, o))
    ensures Cash(PlaceOrder(m, id, o)) > Cash(m) <==>
            id in m.ids && id == o.traderId && o.isBuy && Cost(o.price, o.quantity) < 0.0
  {
    PlaceKeeps(m, id, o);
    if id in m.ids && Reserve(id, m.balances[id], o).Some? {
      TotalSet(m.ids, m.balances, id, Reserve(id, m.balances[id], o).value);
    }
  }

  /** A bid for -1 unit at 10, placed by a trader without any money, leaves that trader with 10. */
  lemma {:induction false} NegativeQuantityMints(o: Order)
    requires o.isBuy && o.traderId == "t" && o.price == 10.0 && o.quantity == -1
    ensures var m := Market(EMPTY_BOOK, ["t"], map["t" := 0.0], 0.0);
            && Sound(m) && Cash(m) == 0.0 && Sound(PlaceOrder(m, "t", o)) && Cash(PlaceOrder(m, "t", o)) == 10.0
  {
    var m := Market(EMPTY_BOOK, ["t"], map["t" := 0.0], 0.0);
    PlaceKeeps(m, "t", o);
    TotalSet(m.ids, m.balances, "t", 10.0);
    assert Cost(o.price, o.quantity) == -10.0;
  }
}
