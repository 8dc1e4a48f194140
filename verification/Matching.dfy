/** Matching over two plain sorted sequences: the reference for src/trading_engine/order_book.c.

    Bids and asks both ascend by (price, time stamp). A round takes the last bid and the first ask.
    The state that trading changes is a map from orders to remaining quantities. */
module Matching {
  import opened Orders

  type Remaining = map<Order, int>

  /** A trade names the order objects; its price is the seller's. */
  datatype Trade = Trade(buy: Order, sell: Order, price: real, quantity: int)

  datatype Pool = Pool(bids: seq<Order>, asks: seq<Order>, rem: Remaining)

  datatype Outcome = Outcome(pool: Pool, log: seq<Trade>)

  predicate MatchPossible(b: Order, a: Order, rem: Remaining, canceled: set<Order>)
    requires b in rem && a in rem
  {
    && b !in canceled && a !in canceled
    && b.symbol == a.symbol
    && b.price >= a.price
    && rem[b] > 0 && rem[a] > 0
  }

  /** Canceled, or with nothing remaining: such an order cannot trade. */
  predicate Dead(o: Order, rem: Remaining, canceled: set<Order>)
    requires o in rem
  {
    o in canceled || rem[o] <= 0
  }

  function MatchQuantity(b: Order, a: Order, rem: Remaining): (q: int)
    requires b in rem && a in rem
    ensures q <= rem[b] && q <= rem[a] && (q == rem[b] || q == rem[a])
  {
    if rem[b] < rem[a] then rem[b] else rem[a]
  }

  function TradeOf(b: Order, a: Order, rem: Remaining): Trade
    requires b in rem && a in rem
  {
    Trade(b, a, a.price, MatchQuantity(b, a, rem))
  }

  function AfterMatch(b: Order, a: Order, rem: Remaining): (r: Remaining)
    requires b in rem && a in rem
  {
    var q := MatchQuantity(b, a, rem);
    rem[b := rem[b] - q][a := rem[a] - q]
  }

  /** All orders are on the right side and have a known remaining quantity. */
  ghost predicate WellSided(p: Pool) {
    && (forall i :: 0 <= i < |p.bids| ==> p.bids[i].isBuy && p.bids[i] in p.rem)
    && (forall i :: 0 <= i < |p.asks| ==> !p.asks[i].isBuy && p.asks[i] in p.rem)
  }

  function BestBid(p: Pool): Order
    requires p.bids != []
  {
    p.bids[|p.bids| - 1]
  }

  function BestAsk(p: Pool): Order
    requires p.asks != []
  {
    p.asks[0]
  }

  predicate CanMatch(p: Pool, canceled: set<Order>)
    requires WellSided(p)
  {
    p.bids != [] && p.asks != [] && MatchPossible(BestBid(p), BestAsk(p), p.rem, canceled)
  }

  function Round(p: Pool, canceled: set<Order>): (p': Pool)
    requires WellSided(p) && CanMatch(p, canceled)
    ensures WellSided(p') && |p'.bids| + |p'.asks| < |p.bids| + |p.asks|
  {
    var b, a := BestBid(p), BestAsk(p);
    var rem := AfterMatch(b, a, p.rem);
    Pool(if rem[b] == 0 then p.bids[..|p.bids| - 1] else p.bids, if rem[a] == 0 then p.asks[1..] else p.asks, rem)
  }

  function RoundTrade(p: Pool, canceled: set<Order>): Trade
    requires WellSided(p) && CanMatch(p, canceled)
  {
    TradeOf(BestBid(p), BestAsk(p), p.rem)
  }

  /** Matches the last bid with the first ask until one side is empty or that pair cannot match. */
  function MatchLists(p: Pool, canceled: set<Order>): Outcome
    requires WellSided(p)
    decreases |p.bids| + |p.asks|
  {
    if !CanMatch(p, canceled) then Outcome(p, [])
    else
      var rest := MatchLists(Round(p, canceled), canceled);
      Outcome(rest.pool, [RoundTrade(p, canceled)] + rest.log)
  }

  // ----- vocabulary -----

  ghost predicate Ascending(s: seq<Order>) {
    forall i, j :: 0 <= i < j < |s| ==> Less(s[i].SortKey(), s[j].SortKey())
  }

  predicate Names(t: Trade, o: Order) {
    t.buy == o || t.sell == o
  }

  /** The quantity of the trades that name `o`. */
  function Traded(log: seq<Trade>, o: Order): int {
    if log == [] then 0
    else (if Names(log[0], o) then log[0].quantity else 0) + Traded(log[1..], o)
  }

  function Volume(log: seq<Trade>): int {
    if log == [] then 0 else log[0].quantity + Volume(log[1..])
  }

  /** The total remaining quantity of a sequence of orders. */
  function TotalRemaining(s: seq<Order>, rem: Remaining): int
    requires forall i :: 0 <= i < |s| ==> s[i] in rem
  {
    if s == [] then 0 else rem[s[0]] + TotalRemaining(s[1..], rem)
  }

  ghost predicate Fair(t: Trade) {
    && t.buy.isBuy && !t.sell.isBuy && t.buy.symbol == t.sell.symbol
    && t.quantity > 0 && t.price == t.sell.price <= t.buy.price
  }

  ghost predicate OneSymbol(p: Pool, symbol: string) {
    && (forall x :: 0 <= x < |p.bids| ==> p.bids[x].symbol == symbol)
    && (forall x :: 0 <= x < |p.asks| ==> p.asks[x].symbol == symbol)
  }

  lemma {:induction false} TradedConcat(l1: seq<Trade>, l2: seq<Trade>, o: Order)
    ensures Traded(l1 + l2, o) == Traded(l1, o) + Traded(l2, o)
  {
    if l1 == [] {
      assert l1 + l2 == l2;
    } else {
      assert (l1 + l2)[1..] == l1[1..] + l2;
      TradedConcat(l1[1..], l2, o);
    }
  }

  // ----- the run -----

  /** The pool that is left keeps a front part of the bids and a back part of the asks. */
  lemma {:induction false} ResidualOrders(p: Pool, canceled: set<Order>)
    requires WellSided(p)
    ensures var q := MatchLists(p, canceled).pool;
            && WellSided(q) && q.rem.Keys == p.rem.Keys
            && |q.bids| <= |p.bids| && q.bids == p.bids[..|q.bids|]
            && |q.asks| <= |p.asks| && q.asks == p.asks[|p.asks| - |q.asks|..]
    decreases |p.bids| + |p.asks|
  {
    if CanMatch(p, canceled) {
      ResidualOrders(Round(p, canceled), canceled);
    }
  }

  /** Every order's remaining quantity drops by exactly what the log says was traded in its name. */
  lemma {:induction false} QuantityConserved(p: Pool, canceled: set<Order>, o: Order)
    requires WellSided(p) && o in p.rem
    ensures var out := MatchLists(p, canceled);
            && o in out.pool.rem
            && out.pool.rem[o] == p.rem[o] - Traded(out.log, o)
            && out.pool.rem[o] <= p.rem[o]
            && (p.rem[o] >= 0 ==> out.pool.rem[o] >= 0)
    decreases |p.bids| + |p.asks|
  {
    if CanMatch(p, canceled) {
      QuantityConserved(Round(p, canceled), canceled, o);
      var log := MatchLists(p, canceled).log;
      assert log[1..] == MatchLists(Round(p, canceled), canceled).log;
      assert BestBid(p).isBuy && !BestAsk(p).isBuy;
    }
  }

  /** An order that left a side of the pool has nothing remaining. */
  lemma {:induction false} LeavesOnlyFilled(p: Pool, canceled: set<Order>)
    requires WellSided(p)
    ensures var q := MatchLists(p, canceled).pool;
            && |q.bids| <= |p.bids| && |q.asks| <= |p.asks| && q.rem.Keys == p.rem.Keys
            && (forall i :: |q.bids| <= i < |p.bids| ==> q.rem[p.bids[i]] == 0)
            && (forall i :: 0 <= i < |p.asks| - |q.asks| ==> q.rem[p.asks[i]] == 0)
    decreases |p.bids| + |p.asks|
  {
    if CanMatch(p, canceled) {
      var r := Round(p, canceled);
      LeavesOnlyFilled(r, canceled);
      ZeroStays(r, canceled, BestBid(p));
      ZeroStays(r, canceled, BestAsk(p));
      assert |r.bids| < |p.bids| ==> r.rem[BestBid(p)] == 0;
      assert |r.asks| < |p.asks| ==> r.rem[BestAsk(p)] == 0;
    }
  }

  lemma {:induction false} ZeroStays(p: Pool, canceled: set<Order>, o: Order)
    requires WellSided(p) && o in p.rem
    ensures var rem := MatchLists(p, canceled).pool.rem;
            o in rem && (p.rem[o] == 0 ==> rem[o] == 0)
  {
    QuantityConserved(p, canceled, o);
  }

  /** Every match removes an order, and the last one still finds one on each side. */
  lemma {:induction false} MatchBound(p: Pool, canceled: set<Order>)
    requires WellSided(p)
    ensures var out := MatchLists(p, canceled);
            && |out.log| <= |p.bids| + |p.asks| - |out.pool.bids| - |out.pool.asks|
            && (out.log != [] ==> |out.log| <= |p.bids| + |p.asks| - 1)
    decreases |p.bids| + |p.asks|
  {
    if CanMatch(p, canceled) {
      MatchBound(Round(p, canceled), canceled);
      ResidualOrders(Round(p, canceled), canceled);
    }
  }

  /** The run stops only when a side is empty or the best pair cannot match. */
  lemma {:induction false} MatchingIsComplete(p: Pool, canceled: set<Order>)
    requires WellSided(p)
    ensures var q := MatchLists(p, canceled).pool;
            WellSided(q) && !CanMatch(q, canceled)
    decreases |p.bids| + |p.asks|
  {
    if CanMatch(p, canceled) {
      MatchingIsComplete(Round(p, canceled), canceled);
    }
  }

  /** A round adds no order and raises no remaining quantity. */
  lemma {:induction false} RoundWithin(p: Pool, canceled: set<Order>)
    requires WellSided(p) && CanMatch(p, canceled)
    ensures var r := Round(p, canceled);
            && (forall o :: o in r.bids ==> o in p.bids) && (forall o :: o in r.asks ==> o in p.asks)
            && r.rem.Keys == p.rem.Keys && forall o :: o in p.rem ==> r.rem[o] <= p.rem[o]
  {
  }

  /** Every trade is between a live bid and a live ask of one symbol, at the ask's price. */
  lemma {:induction false} TradesAreFair(p: Pool, canceled: set<Order>, i: nat)
    requires WellSided(p) && i < |MatchLists(p, canceled).log|
    ensures var t := MatchLists(p, canceled).log[i];
            && Fair(t) && t.buy in p.bids && t.sell in p.asks
            && !Dead(t.buy, p.rem, canceled) && !Dead(t.sell, p.rem, canceled)
    decreases |p.bids| + |p.asks|
  {
    if i > 0 {
      TradesAreFair(Round(p, canceled), canceled, i - 1);
      RoundWithin(p, canceled);
    } else {
      assert BestBid(p).isBuy && !BestAsk(p).isBuy;
    }
  }

  /** The log of a run that starts with a match: the first trade, then the log of the rest. */
  lemma {:induction false} LogUnfolds(p: Pool, canceled: set<Order>, i: nat)
    requires WellSided(p) && CanMatch(p, canceled)
    requires 0 < i <= |MatchLists(p, canceled).log|
    ensures var log, rest := MatchLists(p, canceled).log, MatchLists(Round(p, canceled), canceled).log;
            i - 1 <= |rest| && log[..i] == [RoundTrade(p, canceled)] + rest[..i - 1]
  {
  }

  lemma {:induction false} NotTraded(log: seq<Trade>, o: Order)
    requires forall i :: 0 <= i < |log| ==> !Names(log[i], o)
    ensures Traded(log, o) == 0
  {
    if log != [] {
      NotTraded(log[1..], o);
    }
  }

  /** A dead order, or one outside both sides, is in no trade. */
  lemma {:induction false} OutsidersNotNamed(p: Pool, canceled: set<Order>, o: Order)
    requires WellSided(p) && o in p.rem && (Dead(o, p.rem, canceled) || (o !in p.bids && o !in p.asks))
    ensures forall i :: 0 <= i < |MatchLists(p, canceled).log| ==> !Names(MatchLists(p, canceled).log[i], o)
  {
    var log := MatchLists(p, canceled).log;
    forall i | 0 <= i < |log| ensures !Names(log[i], o) {
      TradesAreFair(p, canceled, i);
    }
  }

  lemma {:induction false} OutsidersDoNotTrade(p: Pool, canceled: set<Order>, o: Order, n: nat)
    requires WellSided(p) && n <= |MatchLists(p, canceled).log|
    requires o in p.rem && (Dead(o, p.rem, canceled) || (o !in p.bids && o !in p.asks))
    ensures Traded(MatchLists(p, canceled).log[..n], o) == 0
  {
    OutsidersNotNamed(p, canceled, o);
    NotTraded(MatchLists(p, canceled).log[..n], o);
  }

  lemma {:induction false} RoundAscending(p: Pool, canceled: set<Order>)
    requires WellSided(p) && CanMatch(p, canceled)
    ensures Ascending(p.bids) ==> Ascending(Round(p, canceled).bids)
    ensures Ascending(p.asks) ==> Ascending(Round(p, canceled).asks)
  {
  }

  /** A round changes the remaining quantity of the best pair only. */
  lemma {:induction false} RoundRest(p: Pool, canceled: set<Order>)
    requires WellSided(p) && Ascending(p.bids) && Ascending(p.asks) && CanMatch(p, canceled)
    ensures var r := Round(p, canceled);
            && (forall i :: 0 <= i < |p.bids| - 1 ==> r.rem[p.bids[i]] == p.rem[p.bids[i]])
            && (forall i :: 0 < i < |p.asks| ==> r.rem[p.asks[i]] == p.rem[p.asks[i]])
  {
    forall i | 0 <= i < |p.bids| - 1 ensures p.bids[i] != BestBid(p) && p.bids[i] != BestAsk(p) {
      assert Less(p.bids[i].SortKey(), BestBid(p).SortKey());
    }
    forall i | 0 < i < |p.asks| ensures p.asks[i] != BestAsk(p) && p.asks[i] != BestBid(p) {
      assert Less(BestAsk(p).SortKey(), p.asks[i].SortKey());
    }
  }

  /** The best ask has the least key. */
  lemma {:induction false} BestAskIsLeast(p: Pool, j: nat)
    requires Ascending(p.asks) && j < |p.asks|
    ensures j == 0 || Less(BestAsk(p).SortKey(), p.asks[j].SortKey())
    ensures BestAsk(p).price <= p.asks[j].price
  {
  }

  /** The best bid has the greatest key. */
  lemma {:induction false} BestBidIsGreatest(p: Pool, j: nat)
    requires Ascending(p.bids) && j < |p.bids|
    ensures j == |p.bids| - 1 || Less(p.bids[j].SortKey(), BestBid(p).SortKey())
    ensures p.bids[j].price <= BestBid(p).price
  {
  }

  /** A bid dropped by a round is on neither side afterwards. */
  lemma {:induction false} DroppedBid(p: Pool, canceled: set<Order>)
    requires WellSided(p) && Ascending(p.bids) && CanMatch(p, canceled)
    ensures var r := Round(p, canceled);
            && |p.bids| - 1 <= |r.bids| <= |p.bids| && r.bids == p.bids[..|r.bids|]
            && (|r.bids| < |p.bids| ==> r.rem[BestBid(p)] == 0 && BestBid(p) !in r.bids && BestBid(p) !in r.asks)
  {
  }

  /** An ask dropped by a round is on neither side afterwards. */
  lemma {:induction false} DroppedAsk(p: Pool, canceled: set<Order>)
    requires WellSided(p) && Ascending(p.asks) && CanMatch(p, canceled)
    ensures var r := Round(p, canceled);
            && |p.asks| - 1 <= |r.asks| <= |p.asks| && r.asks == p.asks[|p.asks| - |r.asks|..]
            && (|r.asks| < |p.asks| ==> r.rem[BestAsk(p)] == 0 && BestAsk(p) !in r.asks && BestAsk(p) !in r.bids)
  {
  }

  /** Splits what an order trades in the first `i` trades at the first round. */
  lemma {:induction false} TradedUnfolds(p: Pool, canceled: set<Order>, i: nat, o: Order)
    requires WellSided(p) && CanMatch(p, canceled) && o in p.rem
    requires 0 < i <= |MatchLists(p, canceled).log|
    ensures var r, log := Round(p, canceled), MatchLists(p, canceled).log;
            var rest := MatchLists(r, canceled).log;
            && i - 1 <= |rest| && o in r.rem
            && Traded(log[..i], o) == p.rem[o] - r.rem[o] + Traded(rest[..i - 1], o)
  {
    var t := RoundTrade(p, canceled);
    var rest := MatchLists(Round(p, canceled), canceled).log;
    LogUnfolds(p, canceled, i);
    TradedConcat([t], rest[..i - 1], o);
    assert BestBid(p).isBuy && !BestAsk(p).isBuy;
  }

  /** When an ask trades, every ask with a smaller key was live before the run and has been filled since. */
  lemma {:induction false} AskPriority(p: Pool, canceled: set<Order>, i: nat, j: nat)
    requires WellSided(p) && Ascending(p.asks)
    requires i < |MatchLists(p, canceled).log| && j < |p.asks|
    requires Less(p.asks[j].SortKey(), MatchLists(p, canceled).log[i].sell.SortKey())
    ensures Traded(MatchLists(p, canceled).log[..i], p.asks[j]) == p.rem[p.asks[j]]
    ensures !Dead(p.asks[j], p.rem, canceled)
    decreases |p.bids| + |p.asks|, 1
  {
    BestAskIsLeast(p, j);
    assert i > 0;
    AskPriorityLater(p, canceled, i, j);
    TradedUnfolds(p, canceled, i, p.asks[j]);
  }

  lemma {:induction false} AskPriorityLater(p: Pool, canceled: set<Order>, i: nat, j: nat)
    requires WellSided(p) && Ascending(p.asks) && CanMatch(p, canceled)
    requires 0 < i <= |MatchLists(Round(p, canceled), canceled).log| && j < |p.asks|
    requires var rest := MatchLists(Round(p, canceled), canceled).log;
             Less(p.asks[j].SortKey(), rest[i - 1].sell.SortKey())
    ensures var r, o := Round(p, canceled), p.asks[j];
            && o in r.rem && Traded(MatchLists(r, canceled).log[..i - 1], o) == r.rem[o]
            && !Dead(o, p.rem, canceled)
    decreases |p.bids| + |p.asks|, 0
  {
    var r := Round(p, canceled);
    RoundWithin(p, canceled);
    RoundAscending(p, canceled);
    DroppedAsk(p, canceled);
    var d := |p.asks| - |r.asks|;
    if j >= d {
      assert r.asks[j - d] == p.asks[j];
      AskPriority(r, canceled, i - 1, j - d);
    } else {
      assert p.asks[j] == BestAsk(p);
      OutsidersDoNotTrade(r, canceled, p.asks[j], i - 1);
    }
  }

  /** When a bid trades, every bid with a greater key was live before the run and has been filled since. */
  lemma {:induction false} BidPriority(p: Pool, canceled: set<Order>, i: nat, j: nat)
    requires WellSided(p) && Ascending(p.bids)
    requires i < |MatchLists(p, canceled).log| && j < |p.bids|
    requires Less(MatchLists(p, canceled).log[i].buy.SortKey(), p.bids[j].SortKey())
    ensures Traded(MatchLists(p, canceled).log[..i], p.bids[j]) == p.rem[p.bids[j]]
    ensures !Dead(p.bids[j], p.rem, canceled)
    decreases |p.bids| + |p.asks|, 1
  {
    BestBidIsGreatest(p, j);
    assert i > 0;
    BidPriorityLater(p, canceled, i, j);
    TradedUnfolds(p, canceled, i, p.bids[j]);
  }

  lemma {:induction false} BidPriorityLater(p: Pool, canceled: set<Order>, i: nat, j: nat)
    requires WellSided(p) && Ascending(p.bids) && CanMatch(p, canceled)
    requires 0 < i <= |MatchLists(Round(p, canceled), canceled).log| && j < |p.bids|
    requires var rest := MatchLists(Round(p, canceled), canceled).log;
             Less(rest[i - 1].buy.SortKey(), p.bids[j].SortKey())
    ensures var r, o := Round(p, canceled), p.bids[j];
            && o in r.rem && Traded(MatchLists(r, canceled).log[..i - 1], o) == r.rem[o]
            && !Dead(o, p.rem, canceled)
    decreases |p.bids| + |p.asks|, 0
  {
    var r := Round(p, canceled);
    RoundWithin(p, canceled);
    RoundAscending(p, canceled);
    DroppedBid(p, canceled);
    if j < |r.bids| {
      assert r.bids[j] == p.bids[j];
      BidPriority(r, canceled, i - 1, j);
    } else {
      assert p.bids[j] == BestBid(p);
      OutsidersDoNotTrade(r, canceled, p.bids[j], i - 1);
    }
  }

  /** Through a run trade prices never fall and the buyers' limits never rise. */
  lemma {:induction false} PricesConverge(p: Pool, canceled: set<Order>, i: nat, k: nat)
    requires WellSided(p) && Ascending(p.bids) && Ascending(p.asks)
    requires i <= k < |MatchLists(p, canceled).log|
    ensures var log := MatchLists(p, canceled).log;
            log[i].price <= log[k].price && log[k].buy.price <= log[i].buy.price
    decreases |p.bids| + |p.asks|
  {
    if i > 0 {
      RoundAscending(p, canceled);
      PricesConverge(Round(p, canceled), canceled, i - 1, k - 1);
    } else {
      FirstTradeIsExtreme(p, canceled, k);
    }
  }

  lemma {:induction false} FirstTradeIsExtreme(p: Pool, canceled: set<Order>, k: nat)
    requires WellSided(p) && Ascending(p.bids) && Ascending(p.asks)
    requires k < |MatchLists(p, canceled).log|
    ensures var log := MatchLists(p, canceled).log;
            log[0].price <= log[k].price && log[k].buy.price <= log[0].buy.price
  {
    TradesAreFair(p, canceled, k);
    var t := MatchLists(p, canceled).log[k];
    var x :| 0 <= x < |p.asks| && p.asks[x] == t.sell;
    var y :| 0 <= y < |p.bids| && p.bids[y] == t.buy;
    BestAskIsLeast(p, x);
    BestBidIsGreatest(p, y);
  }

  // ----- an uncrossed book -----

  ghost predicate AllLive(p: Pool, canceled: set<Order>)
    requires WellSided(p)
  {
    && (forall i :: 0 <= i < |p.bids| ==> !Dead(p.bids[i], p.rem, canceled))
    && (forall i :: 0 <= i < |p.asks| ==> !Dead(p.asks[i], p.rem, canceled))
  }

  lemma {:induction false} LiveStays(p: Pool, canceled: set<Order>)
    requires WellSided(p) && Ascending(p.bids) && Ascending(p.asks) && AllLive(p, canceled)
    ensures var q := MatchLists(p, canceled).pool;
            WellSided(q) && AllLive(q, canceled)
    decreases |p.bids| + |p.asks|
  {
    if CanMatch(p, canceled) {
      var r := Round(p, canceled);
      RoundRest(p, canceled);
      RoundAscending(p, canceled);
      forall i | 0 <= i < |r.bids| ensures !Dead(r.bids[i], r.rem, canceled) {
        assert r.bids[i] == p.bids[i];
      }
      forall i | 0 <= i < |r.asks| ensures !Dead(r.asks[i], r.rem, canceled) {
        assert r.asks[i] == p.asks[i + |p.asks| - |r.asks|];
      }
      LiveStays(r, canceled);
    }
  }

  /** With live orders of one symbol only, matching leaves every bid strictly below every ask. */
  lemma {:induction false} MatchingUncrosses(p: Pool, canceled: set<Order>, symbol: string, i: nat, j: nat)
    requires WellSided(p) && Ascending(p.bids) && Ascending(p.asks) && AllLive(p, canceled)
    requires OneSymbol(p, symbol)
    requires i < |MatchLists(p, canceled).pool.bids| && j < |MatchLists(p, canceled).pool.asks|
    ensures var q := MatchLists(p, canceled).pool;
            q.bids[i].price < q.asks[j].price
  {
    var q := MatchLists(p, canceled).pool;
    MatchingIsComplete(p, canceled);
    LiveStays(p, canceled);
    ResidualOrders(p, canceled);
    LiveBestPair(q, canceled, symbol);
    BestBidIsGreatest(q, i);
    BestAskIsLeast(q, j);
  }

  /** Two live best orders of one symbol fail to match only for their prices. */
  lemma {:induction false} LiveBestPair(q: Pool, canceled: set<Order>, symbol: string)
    requires WellSided(q) && AllLive(q, canceled) && !CanMatch(q, canceled) && q.bids != [] && q.asks != []
    requires OneSymbol(q, symbol)
    ensures BestBid(q).price < BestAsk(q).price
  {
  }

  // ----- both sides trade the same volume -----

  lemma {:induction false} TotalUnchanged(s: seq<Order>, rem: Remaining, rem': Remaining)
    requires forall i :: 0 <= i < |s| ==> s[i] in rem && s[i] in rem' && rem[s[i]] == rem'[s[i]]
    ensures TotalRemaining(s, rem) == TotalRemaining(s, rem')
  {
    if s != [] {
      TotalUnchanged(s[1..], rem, rem');
    }
  }

  lemma {:induction false} TotalConcat(a: seq<Order>, b: seq<Order>, rem: Remaining)
    requires forall i :: 0 <= i < |a| ==> a[i] in rem
    requires forall i :: 0 <= i < |b| ==> b[i] in rem
    ensures TotalRemaining(a + b, rem) == TotalRemaining(a, rem) + TotalRemaining(b, rem)
  {
    if a == [] {
      assert a + b == b;
    } else {
      assert (a + b)[1..] == a[1..] + b;
      TotalConcat(a[1..], b, rem);
    }
  }

  /** A round lowers the total of each side by the traded quantity; an order it drops has nothing left. */
  lemma {:induction false} RoundTotals(p: Pool, canceled: set<Order>)
    requires WellSided(p) && Ascending(p.bids) && Ascending(p.asks) && CanMatch(p, canceled)
    ensures var r, q := Round(p, canceled), RoundTrade(p, canceled).quantity;
            && TotalRemaining(p.bids, p.rem) == TotalRemaining(r.bids, r.rem) + q
            && TotalRemaining(p.asks, p.rem) == TotalRemaining(r.asks, r.rem) + q
  {
    var r := Round(p, canceled);
    var b, a := BestBid(p), BestAsk(p);
    var front, back := p.bids[..|p.bids| - 1], p.asks[1..];
    assert p.bids == front + [b] && p.asks == [a] + back;
    RoundRest(p, canceled);
    TotalConcat(front, [b], p.rem);
    TotalConcat(front, [b], r.rem);
    TotalUnchanged(front, p.rem, r.rem);
    TotalUnchanged(back, p.rem, r.rem);
  }

  /** What the bids lost in total is what the asks lost in total, and it is the volume of the log. */
  lemma {:induction false} VolumeBalances(p: Pool, canceled: set<Order>)
    requires WellSided(p) && Ascending(p.bids) && Ascending(p.asks)
    ensures var out := MatchLists(p, canceled);
            && WellSided(out.pool)
            && TotalRemaining(p.bids, p.rem) - TotalRemaining(out.pool.bids, out.pool.rem) == Volume(out.log)
            && TotalRemaining(p.asks, p.rem) - TotalRemaining(out.pool.asks, out.pool.rem) == Volume(out.log)
    decreases |p.bids| + |p.asks|
  {
    if CanMatch(p, canceled) {
      RoundTotals(p, canceled);
      RoundAscending(p, canceled);
      VolumeBalances(Round(p, canceled), canceled);
      assert MatchLists(p, canceled).log[1..] == MatchLists(Round(p, canceled), canceled).log;
    }
  }

  // ----- price-time priority -----

  /** Whether `o` still has something remaining when trade `i` is made. */
  predicate Waiting(p: Pool, log: seq<Trade>, i: nat, o: Order)
    requires o in p.rem && i <= |log|
  {
    p.rem[o] - Traded(log[..i], o) > 0
  }

  /** Over a run: every trade goes to an ask that is first under the declared priority among the asks still waiting. */
  lemma {:induction false} AskTimePriority(p: Pool, canceled: set<Order>, i: nat, j: nat)
    requires WellSided(p) && Ascending(p.asks) && i < |MatchLists(p, canceled).log| && j < |p.asks|
    requires Waiting(p, MatchLists(p, canceled).log, i, p.asks[j])
    ensures OrderCompare(MatchLists(p, canceled).log[i].sell, p.asks[j]) <= 0
  {
    TradesAreFair(p, canceled, i);
    if Less(p.asks[j].SortKey(), MatchLists(p, canceled).log[i].sell.SortKey()) {
      AskPriority(p, canceled, i, j);
    }
  }

  /** Before a bid trades, no bid with a smaller key has traded anything. */
  lemma {:induction false} LowerBidsWait(p: Pool, canceled: set<Order>, i: nat, j: nat)
    requires WellSided(p) && Ascending(p.bids)
    requires i < |MatchLists(p, canceled).log| && j < |p.bids|
    requires Less(p.bids[j].SortKey(), MatchLists(p, canceled).log[i].buy.SortKey())
    ensures Traded(MatchLists(p, canceled).log[..i], p.bids[j]) == 0
    decreases |p.bids| + |p.asks|
  {
    if i > 0 {
      LowerThanTrader(p, canceled, i, j);
      DroppedBid(p, canceled);
      LowerBidsWait(Round(p, canceled), canceled, i - 1, j);
      TradedUnfolds(p, canceled, i, p.bids[j]);
    }
  }

  /** A bid below one that trades is not the best bid, so the first round leaves it alone. */
  lemma {:induction false} LowerThanTrader(p: Pool, canceled: set<Order>, i: nat, j: nat)
    requires WellSided(p) && Ascending(p.bids)
    requires i < |MatchLists(p, canceled).log| && j < |p.bids|
    requires Less(p.bids[j].SortKey(), MatchLists(p, canceled).log[i].buy.SortKey())
    ensures j < |p.bids| - 1 && CanMatch(p, canceled) && Round(p, canceled).rem[p.bids[j]] == p.rem[p.bids[j]]
  {
    TradesAreFair(p, canceled, i);
    var x :| 0 <= x < |p.bids| && p.bids[x] == MatchLists(p, canceled).log[i].buy;
    BestBidIsGreatest(p, x);
    assert p.bids[j].isBuy && !BestAsk(p).isBuy && p.bids[j] != BestBid(p);
  }

  /** Over a run: a trade goes to a bid that is first under the declared priority among the bids still waiting if
      and only if no bid at its price is earlier and had anything remaining before the run. Among bids of one price
      the latest goes first, not the earliest. */
  lemma {:induction false} BidTimePriority(p: Pool, canceled: set<Order>, i: nat)
    requires WellSided(p) && Ascending(p.bids) && i < |MatchLists(p, canceled).log|
    ensures var log := MatchLists(p, canceled).log;
            var b := log[i].buy;
            (forall j :: 0 <= j < |p.bids| && Waiting(p, log, i, p.bids[j]) ==> OrderCompare(b, p.bids[j]) <= 0) <==>
            (forall j :: 0 <= j < |p.bids| && p.bids[j].price == b.price && p.bids[j].timestamp < b.timestamp ==>
               p.rem[p.bids[j]] <= 0)
  {
    var log := MatchLists(p, canceled).log;
    var b := log[i].buy;
    TradesAreFair(p, canceled, i);
    forall j | 0 <= j < |p.bids|
      ensures Less(b.SortKey(), p.bids[j].SortKey()) ==> !Waiting(p, log, i, p.bids[j])
      ensures Less(p.bids[j].SortKey(), b.SortKey()) ==> (Waiting(p, log, i, p.bids[j]) <==> p.rem[p.bids[j]] > 0)
    {
      if Less(b.SortKey(), p.bids[j].SortKey()) {
        BidPriority(p, canceled, i, j);
      } else if Less(p.bids[j].SortKey(), b.SortKey()) {
        LowerBidsWait(p, canceled, i, j);
      }
    }
  }

  /** Two bids at one price, one ask that only one of them can fill: the later bid gets the whole trade. */
  lemma {:induction false} LaterBidFirst(early: Order, late: Order, ask: Order)
    requires early.isBuy && late.isBuy && !ask.isBuy && early.price == late.price == ask.price
    requires early.timestamp < late.timestamp && early.symbol == late.symbol == ask.symbol
    requires early.quantity == late.quantity == ask.quantity == 5
    ensures var p := Pool([early, late], [ask], map[early := 5, late := 5, ask := 5]);
            && WellSided(p) && OrderCompare(early, late) < 0
            && MatchLists(p, {}).log == [Trade(late, ask, ask.price, 5)]
            && MatchLists(p, {}).pool.bids == [early]
  {
  }
}
