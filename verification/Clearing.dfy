/** How much a matching run trades: as much as the best auction at a single price. */
module Clearing {
  import opened Orders
  import opened Matching

  /** The remaining quantity of the orders that would buy, or sell, at price `x`. */
  function QuantityFor(s: seq<Order>, x: real, rem: Remaining): int
    requires forall i :: 0 <= i < |s| ==> s[i] in rem
  {
    if s == [] then 0 else (if TakesPrice(s[0], x) then rem[s[0]] else 0) + QuantityFor(s[1..], x, rem)
  }

  predicate TakesPrice(o: Order, x: real) {
    if o.isBuy then o.price >= x else o.price <= x
  }

  lemma {:induction false} QuantityForConcat(a: seq<Order>, b: seq<Order>, x: real, rem: Remaining)
    requires forall i :: 0 <= i < |a| ==> a[i] in rem
    requires forall i :: 0 <= i < |b| ==> b[i] in rem
    ensures QuantityFor(a + b, x, rem) == QuantityFor(a, x, rem) + QuantityFor(b, x, rem)
  {
    if a == [] {
      assert a + b == b;
    } else {
      assert (a + b)[1..] == a[1..] + b;
      QuantityForConcat(a[1..], b, x, rem);
    }
  }

  lemma {:induction false} QuantityForUnchanged(s: seq<Order>, x: real, rem: Remaining, rem': Remaining)
    requires forall i :: 0 <= i < |s| ==> s[i] in rem && s[i] in rem' && rem[s[i]] == rem'[s[i]]
    ensures QuantityFor(s, x, rem) == QuantityFor(s, x, rem')
  {
    if s != [] {
      QuantityForUnchanged(s[1..], x, rem, rem');
    }
  }

  lemma {:induction false} QuantityForBounds(s: seq<Order>, x: real, rem: Remaining)
    requires forall i :: 0 <= i < |s| ==> s[i] in rem && rem[s[i]] > 0
    ensures QuantityFor(s, x, rem) >= 0
    ensures (forall i :: 0 <= i < |s| ==> !TakesPrice(s[i], x)) ==> QuantityFor(s, x, rem) == 0
  {
    if s != [] {
      QuantityForBounds(s[1..], x, rem);
    }
  }

  /** A round takes its quantity off each side at `x`, if the order that trades takes `x`. */
  lemma {:induction false} RoundQuantityFor(p: Pool, canceled: set<Order>, x: real)
    requires WellSided(p) && Ascending(p.bids) && Ascending(p.asks) && CanMatch(p, canceled)
    ensures var r, t := Round(p, canceled), RoundTrade(p, canceled);
            && QuantityFor(p.bids, x, p.rem) ==
               QuantityFor(r.bids, x, r.rem) + (if TakesPrice(t.buy, x) then t.quantity else 0)
            && QuantityFor(p.asks, x, p.rem) ==
               QuantityFor(r.asks, x, r.rem) + (if TakesPrice(t.sell, x) then t.quantity else 0)
  {
    var r := Round(p, canceled);
    var b, a := BestBid(p), BestAsk(p);
    var front, back := p.bids[..|p.bids| - 1], p.asks[1..];
    assert p.bids == front + [b] && p.asks == [a] + back;
    RoundRest(p, canceled);
    QuantityForConcat(front, [b], x, p.rem);
    QuantityForConcat(front, [b], x, r.rem);
    QuantityForUnchanged(front, x, p.rem, r.rem);
    QuantityForUnchanged(back, x, p.rem, r.rem);
  }

  /** A run takes at most its volume off each side at `x`, and all of it when every trade's order takes `x`. */
  lemma {:induction false} RunQuantityFor(p: Pool, canceled: set<Order>, x: real)
    requires WellSided(p) && Ascending(p.bids) && Ascending(p.asks)
    ensures var out := MatchLists(p, canceled);
            && WellSided(out.pool)
            && var d := QuantityFor(p.bids, x, p.rem) - QuantityFor(out.pool.bids, x, out.pool.rem);
               var s := QuantityFor(p.asks, x, p.rem) - QuantityFor(out.pool.asks, x, out.pool.rem);
               && d <= Volume(out.log) && s <= Volume(out.log)
               && ((forall i :: 0 <= i < |out.log| ==> TakesPrice(out.log[i].buy, x)) ==> d == Volume(out.log))
               && ((forall i :: 0 <= i < |out.log| ==> TakesPrice(out.log[i].sell, x)) ==> s == Volume(out.log))
    decreases |p.bids| + |p.asks|
  {
    if CanMatch(p, canceled) {
      RoundQuantityFor(p, canceled, x);
      RoundAscending(p, canceled);
      RunQuantityFor(Round(p, canceled), canceled, x);
      var log, rest := MatchLists(p, canceled).log, MatchLists(Round(p, canceled), canceled).log;
      assert log[1..] == rest && log[0] == RoundTrade(p, canceled);
      assert forall i :: 0 <= i < |rest| ==> rest[i] == log[i + 1];
    }
  }

  /** What would trade in one auction at price `x`. */
  function AuctionVolume(p: Pool, x: real): int
    requires WellSided(p)
  {
    var d, s := QuantityFor(p.bids, x, p.rem), QuantityFor(p.asks, x, p.rem);
    if d < s then d else s
  }

  /** No auction at a single price trades more than a run does. */
  lemma {:induction false} NoAuctionTradesMore(p: Pool, canceled: set<Order>, symbol: string, x: real)
    requires WellSided(p) && Ascending(p.bids) && Ascending(p.asks) && AllLive(p, canceled) && OneSymbol(p, symbol)
    ensures AuctionVolume(p, x) <= Volume(MatchLists(p, canceled).log)
  {
    var q := MatchLists(p, canceled).pool;
    RunQuantityFor(p, canceled, x);
    LiveStays(p, canceled);
    QuantityForBounds(q.bids, x, q.rem);
    QuantityForBounds(q.asks, x, q.rem);
    if i, j :| 0 <= i < |q.bids| && 0 <= j < |q.asks| && TakesPrice(q.bids[i], x) && TakesPrice(q.asks[j], x) {
      MatchingUncrosses(p, canceled, symbol, i, j);
    }
  }

  /** The auction at the price of the run's last trade trades as much. */
  lemma {:induction false} LastPriceClears(p: Pool, canceled: set<Order>)
    requires WellSided(p) && Ascending(p.bids) && Ascending(p.asks) && AllLive(p, canceled)
    requires MatchLists(p, canceled).log != []
    ensures var log := MatchLists(p, canceled).log;
            AuctionVolume(p, log[|log| - 1].price) >= Volume(log)
  {
    var q, log := MatchLists(p, canceled).pool, MatchLists(p, canceled).log;
    var n := |log| - 1;
    var x := log[n].price;
    forall i | 0 <= i < |log| ensures TakesPrice(log[i].buy, x) && TakesPrice(log[i].sell, x) {
      PricesConverge(p, canceled, i, n);
      TradesAreFair(p, canceled, i);
      TradesAreFair(p, canceled, n);
    }
    RunQuantityFor(p, canceled, x);
    LiveStays(p, canceled);
    QuantityForBounds(q.bids, x, q.rem);
    QuantityForBounds(q.asks, x, q.rem);
  }

  /** With live orders of one symbol, the volume of a run is the greatest that an auction at one price would trade. */
  lemma {:induction false} VolumeIsClearing(p: Pool, canceled: set<Order>, symbol: string) returns (x: real)
    requires WellSided(p) && Ascending(p.bids) && Ascending(p.asks) && AllLive(p, canceled) && OneSymbol(p, symbol)
    ensures Volume(MatchLists(p, canceled).log) == AuctionVolume(p, x)
    ensures forall y :: AuctionVolume(p, y) <= AuctionVolume(p, x)
  {
    var log := MatchLists(p, canceled).log;
    x := if log == [] then 0.0 else log[|log| - 1].price;
    forall y: real ensures AuctionVolume(p, y) <= Volume(log) {
      NoAuctionTradesMore(p, canceled, symbol, y);
    }
    if log == [] {
      QuantityForBounds(p.bids, x, p.rem);
      QuantityForBounds(p.asks, x, p.rem);
    } else {
      LastPriceClears(p, canceled);
    }
  }
}
