/** Orders that cannot trade, canceled or with nothing remaining, in the way of those that can.

    The matching test of src/trading_engine/order_book.c refuses such an order, and nothing takes it off its side. */
module DeadOrders {
  import opened Orders
  import opened Matching

  /** A dead order never leaves its side. */
  lemma {:induction false} DeadStays(p: Pool, canceled: set<Order>, o: Order)
    requires WellSided(p) && o in p.rem && Dead(o, p.rem, canceled)
    ensures var q := MatchLists(p, canceled).pool;
            (o in p.bids ==> o in q.bids) && (o in p.asks ==> o in q.asks)
    decreases |p.bids| + |p.asks|
  {
    if CanMatch(p, canceled) {
      var r := Round(p, canceled);
      assert o != BestBid(p) && o != BestAsk(p);
      assert p.bids == p.bids[..|p.bids| - 1] + [BestBid(p)] && p.asks == [BestAsk(p)] + p.asks[1..];
      DeadStays(r, canceled, o);
    }
  }

  /** Which best pairs cannot trade although their prices meet. */
  predicate Stuck(b: Order, a: Order, rem: Remaining, canceled: set<Order>)
    requires b in rem && a in rem
  {
    Dead(b, rem, canceled) || Dead(a, rem, canceled) || b.symbol != a.symbol
  }

  /** Where some bid reaches some ask, nothing trades if and only if the best bid or the best ask is dead, or they are
      of different symbols. */
  lemma {:induction false} BlockedExactly(p: Pool, canceled: set<Order>, i: nat, j: nat)
    requires WellSided(p) && Ascending(p.bids) && Ascending(p.asks)
    requires i < |p.bids| && j < |p.asks| && p.bids[i].price >= p.asks[j].price
    ensures MatchLists(p, canceled).log == [] <==> Stuck(BestBid(p), BestAsk(p), p.rem, canceled)
  {
    BestBidIsGreatest(p, i);
    BestAskIsLeast(p, j);
  }

  /** A run leaves a bid that reaches an ask only behind a best pair that cannot trade. */
  lemma {:induction false} CrossedOnlyIfStuck(p: Pool, canceled: set<Order>, i: nat, j: nat)
    requires WellSided(p) && Ascending(p.bids) && Ascending(p.asks)
    requires i < |MatchLists(p, canceled).pool.bids| && j < |MatchLists(p, canceled).pool.asks|
    ensures var q := MatchLists(p, canceled).pool;
            && WellSided(q)
            && (q.bids[i].price >= q.asks[j].price ==> Stuck(BestBid(q), BestAsk(q), q.rem, canceled))
  {
    var q := MatchLists(p, canceled).pool;
    MatchingIsComplete(p, canceled);
    ResidualOrders(p, canceled);
    BestBidIsGreatest(q, i);
    BestAskIsLeast(q, j);
  }

  // ----- when they change nothing -----

  /** The orders that are not in `gone`. */
  function Outside(s: seq<Order>, gone: set<Order>): seq<Order> {
    if s == [] then []
    else if s[0] in gone then Outside(s[1..], gone)
    else [s[0]] + Outside(s[1..], gone)
  }

  function PoolOutside(p: Pool, gone: set<Order>): Pool {
    p.(bids := Outside(p.bids, gone), asks := Outside(p.asks, gone))
  }

  ghost predicate AllDead(gone: set<Order>, rem: Remaining, canceled: set<Order>) {
    forall o :: o in gone && o in rem ==> Dead(o, rem, canceled)
  }

  lemma {:induction false} OutsideConcat(a: seq<Order>, b: seq<Order>, gone: set<Order>)
    ensures Outside(a + b, gone) == Outside(a, gone) + Outside(b, gone)
  {
    if a == [] {
      assert a + b == b;
    } else {
      assert (a + b)[1..] == a[1..] + b;
      OutsideConcat(a[1..], b, gone);
    }
  }

  lemma {:induction false} OutsideMembers(s: seq<Order>, gone: set<Order>)
    ensures forall i :: 0 <= i < |Outside(s, gone)| ==> Outside(s, gone)[i] in s && Outside(s, gone)[i] !in gone
    ensures forall o :: o in s && o !in gone ==> o in Outside(s, gone)
  {
    if s != [] {
      OutsideMembers(s[1..], gone);
    }
  }

  lemma {:induction false} PoolOutsideSided(p: Pool, gone: set<Order>)
    requires WellSided(p)
    ensures WellSided(PoolOutside(p, gone))
  {
    OutsideMembers(p.bids, gone);
    OutsideMembers(p.asks, gone);
  }

  /** A side that ends, or starts, with an order outside `gone` still does so without those in it. */
  lemma {:induction false} OutsideEnds(s: seq<Order>, gone: set<Order>)
    requires s != []
    ensures s[|s| - 1] !in gone ==> Outside(s, gone) == Outside(s[..|s| - 1], gone) + [s[|s| - 1]]
    ensures s[0] !in gone ==> Outside(s, gone) == [s[0]] + Outside(s[1..], gone)
  {
    assert s == s[..|s| - 1] + [s[|s| - 1]];
    OutsideConcat(s[..|s| - 1], [s[|s| - 1]], gone);
  }

  /** A round of the pool is a round of the pool without some of its dead orders. */
  lemma {:induction false} OutsideRound(p: Pool, canceled: set<Order>, gone: set<Order>)
    requires WellSided(p) && CanMatch(p, canceled) && AllDead(gone, p.rem, canceled)
    ensures var q := PoolOutside(p, gone);
            && WellSided(q) && CanMatch(q, canceled)
            && RoundTrade(q, canceled) == RoundTrade(p, canceled)
            && Round(q, canceled) == PoolOutside(Round(p, canceled), gone)
    ensures AllDead(gone, Round(p, canceled).rem, canceled)
  {
    PoolOutsideSided(p, gone);
    OutsideEnds(p.bids, gone);
    OutsideEnds(p.asks, gone);
  }

  /** No bid in `gone` is above, and no ask in it below, an order of the trade. */
  ghost predicate ClearOf(p: Pool, gone: set<Order>, t: Trade) {
    && (forall x :: 0 <= x < |p.bids| && p.bids[x] in gone ==> !Less(t.buy.SortKey(), p.bids[x].SortKey()))
    && (forall x :: 0 <= x < |p.asks| && p.asks[x] in gone ==> !Less(p.asks[x].SortKey(), t.sell.SortKey()))
  }

  /** If the other orders can trade and their next trade is clear of those in `gone`, the pool makes that trade. */
  lemma {:induction false} ClearTradeIsMade(p: Pool, canceled: set<Order>, gone: set<Order>)
    requires WellSided(p) && Ascending(p.bids) && Ascending(p.asks)
    requires WellSided(PoolOutside(p, gone)) && CanMatch(PoolOutside(p, gone), canceled)
    requires ClearOf(p, gone, RoundTrade(PoolOutside(p, gone), canceled))
    ensures CanMatch(p, canceled)
  {
    var q := PoolOutside(p, gone);
    OutsideMembers(p.bids, gone);
    OutsideMembers(p.asks, gone);
    var x :| 0 <= x < |p.bids| && p.bids[x] == BestBid(q);
    var y :| 0 <= y < |p.asks| && p.asks[y] == BestAsk(q);
    BestBidIsGreatest(p, x);
    BestAskIsLeast(p, y);
    OutsideEnds(p.bids, gone);
    OutsideEnds(p.asks, gone);
  }

  lemma {:induction false} ClearRunAgrees(p: Pool, canceled: set<Order>, gone: set<Order>)
    requires WellSided(p) && Ascending(p.bids) && Ascending(p.asks) && WellSided(PoolOutside(p, gone))
    requires AllDead(gone, p.rem, canceled)
    requires forall i :: 0 <= i < |MatchLists(PoolOutside(p, gone), canceled).log| ==>
               ClearOf(p, gone, MatchLists(PoolOutside(p, gone), canceled).log[i])
    ensures MatchLists(p, canceled).log == MatchLists(PoolOutside(p, gone), canceled).log
    decreases |p.bids| + |p.asks|
  {
    var q := PoolOutside(p, gone);
    if CanMatch(q, canceled) {
      var others := MatchLists(q, canceled).log;
      assert others[0] == RoundTrade(q, canceled) && ClearOf(p, gone, others[0]);
      ClearTradeIsMade(p, canceled, gone);
      OutsideRound(p, canceled, gone);
      RoundAscending(p, canceled);
      var r, rest := Round(p, canceled), MatchLists(Round(q, canceled), canceled).log;
      forall i | 0 <= i < |rest| ensures ClearOf(r, gone, rest[i]) {
        assert rest[i] == others[i + 1] && ClearOf(p, gone, others[i + 1]);
        StillClear(p, canceled, gone, rest[i]);
      }
      ClearRunAgrees(r, canceled, gone);
    } else if CanMatch(p, canceled) {
      OutsideRound(p, canceled, gone);
    }
  }

  lemma {:induction false} StillClear(p: Pool, canceled: set<Order>, gone: set<Order>, t: Trade)
    requires WellSided(p) && CanMatch(p, canceled) && ClearOf(p, gone, t)
    ensures ClearOf(Round(p, canceled), gone, t)
  {
  }

  /** A trade is made only when no dead order is ahead of it. */
  lemma {:induction false} TradedAreClear(p: Pool, canceled: set<Order>, gone: set<Order>, i: nat)
    requires WellSided(p) && Ascending(p.bids) && Ascending(p.asks) && AllDead(gone, p.rem, canceled)
    requires i < |MatchLists(p, canceled).log|
    ensures ClearOf(p, gone, MatchLists(p, canceled).log[i])
  {
    var t := MatchLists(p, canceled).log[i];
    forall x | 0 <= x < |p.bids| && p.bids[x] in gone ensures !Less(t.buy.SortKey(), p.bids[x].SortKey()) {
      if Less(t.buy.SortKey(), p.bids[x].SortKey()) {
        BidPriority(p, canceled, i, x);
      }
    }
    forall x | 0 <= x < |p.asks| && p.asks[x] in gone ensures !Less(p.asks[x].SortKey(), t.sell.SortKey()) {
      if Less(p.asks[x].SortKey(), t.sell.SortKey()) {
        AskPriority(p, canceled, i, x);
      }
    }
  }

  /** Any dead orders that rest in the book change nothing if and only if none of them is ahead of an order that the
      others alone would trade. */
  lemma {:induction false} DeadAreHarmless(p: Pool, canceled: set<Order>, gone: set<Order>)
    requires WellSided(p) && Ascending(p.bids) && Ascending(p.asks) && AllDead(gone, p.rem, canceled)
    ensures WellSided(PoolOutside(p, gone))
    ensures var others := MatchLists(PoolOutside(p, gone), canceled).log;
            MatchLists(p, canceled).log == others <==> forall i :: 0 <= i < |others| ==> ClearOf(p, gone, others[i])
  {
    PoolOutsideSided(p, gone);
    var log, others := MatchLists(p, canceled).log, MatchLists(PoolOutside(p, gone), canceled).log;
    if log == others {
      forall i | 0 <= i < |log| ensures ClearOf(p, gone, log[i]) {
        TradedAreClear(p, canceled, gone, i);
      }
    }
    if forall i :: 0 <= i < |others| ==> ClearOf(p, gone, others[i]) {
      ClearRunAgrees(p, canceled, gone);
    }
  }

  /** So for the canceled orders of any pool. */
  lemma {:induction false} CanceledAreHarmless(p: Pool, canceled: set<Order>)
    requires WellSided(p) && Ascending(p.bids) && Ascending(p.asks)
    ensures WellSided(PoolOutside(p, canceled))
    ensures var live := MatchLists(PoolOutside(p, canceled), canceled).log;
            MatchLists(p, canceled).log == live <==> forall i :: 0 <= i < |live| ==> ClearOf(p, canceled, live[i])
  {
    DeadAreHarmless(p, canceled, canceled);
  }
}
