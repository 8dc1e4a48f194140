/** The book snapshot that src/server/server_handlers.c sends to clients: the live orders of both trees, in
    order, up to a fixed number on each side. */
module Snapshot {
  import opened Orders
  import opened Matching
  import opened BookModel
  import Books = OrderBook

  const MAX_SNAPSHOT_ORDERS := 200

  datatype Level = Level(price: real, quantity: int)

  /** Price and remaining quantity of the live orders. */
  function LiveLevels(s: seq<Order>, rem: Remaining, canceled: set<Order>): seq<Level>
    requires forall i :: 0 <= i < |s| ==> s[i] in rem
  {
    if s == [] then []
    else if !Dead(s[0], rem, canceled) then [Level(s[0].price, rem[s[0]])] + LiveLevels(s[1..], rem, canceled)
    else LiveLevels(s[1..], rem, canceled)
  }

  function UpTo(s: seq<Level>, n: nat): (r: seq<Level>)
    ensures r <= s && |r| == if |s| <= n then |s| else n
  {
    if |s| <= n then s else s[..n]
  }

  lemma {:induction false} LiveConcat(a: seq<Order>, b: seq<Order>, rem: Remaining, canceled: set<Order>)
    requires forall i :: 0 <= i < |a| ==> a[i] in rem
    requires forall i :: 0 <= i < |b| ==> b[i] in rem
    ensures LiveLevels(a + b, rem, canceled) == LiveLevels(a, rem, canceled) + LiveLevels(b, rem, canceled)
  {
    if a == [] {
      assert a + b == b;
    } else {
      assert (a + b)[1..] == a[1..] + b;
      LiveConcat(a[1..], b, rem, canceled);
    }
  }

  function LevelQuantity(s: seq<Level>, price: real): int {
    if s == [] then 0 else (if s[0].price == price then s[0].quantity else 0) + LevelQuantity(s[1..], price)
  }

  lemma {:induction false} LevelQuantityConcat(a: seq<Level>, b: seq<Level>, price: real)
    ensures LevelQuantity(a + b, price) == LevelQuantity(a, price) + LevelQuantity(b, price)
  {
    if a == [] {
      assert a + b == b;
    } else {
      assert (a + b)[1..] == a[1..] + b;
      LevelQuantityConcat(a[1..], b, price);
    }
  }

  /** When nothing is cut off, the quantities shown at a price add up to the book's quantity at that price if and only
      if no uncanceled order at that price has a negative one. */
  lemma {:induction false} SnapshotAgrees(s: seq<Order>, rem: Remaining, canceled: set<Order>, price: real, n: nat)
    requires forall i :: 0 <= i < |s| ==> s[i] in rem
    requires |LiveLevels(s, rem, canceled)| <= n
    ensures LevelQuantity(UpTo(LiveLevels(s, rem, canceled), n), price) == QuantityAt(s, price, rem, canceled) <==>
            forall i :: 0 <= i < |s| && s[i].price == price && s[i] !in canceled ==> rem[s[i]] >= 0
  {
    ShownQuantity(s, rem, canceled, price);
  }

  lemma {:induction false} ShownQuantity(s: seq<Order>, rem: Remaining, canceled: set<Order>, price: real)
    requires forall i :: 0 <= i < |s| ==> s[i] in rem
    ensures var shown, held := LevelQuantity(LiveLevels(s, rem, canceled), price), QuantityAt(s, price, rem, canceled);
            && shown >= held
            && (shown == held <==>
                forall i :: 0 <= i < |s| && s[i].price == price && s[i] !in canceled ==> rem[s[i]] >= 0)
  {
    if s != [] {
      ShownQuantity(s[1..], rem, canceled, price);
      if !Dead(s[0], rem, canceled) {
        LevelQuantityConcat([Level(s[0].price, rem[s[0]])], LiveLevels(s[1..], rem, canceled), price);
      }
      assert forall i :: 0 < i < |s| ==> s[i] == s[1..][i - 1];
    }
  }

  /** A single order for -1 unit is not shown, but the book's quantity at its price is -1. */
  lemma {:induction false} NegativeOrderHidden(o: Order, rem: Remaining)
    requires o in rem && rem[o] == -1
    ensures LiveLevels([o], rem, {}) == [] && QuantityAt([o], o.price, rem, {}) == -1
  {
    assert [o][1..] == [] && QuantityAt([], o.price, rem, {}) == 0;
  }

  /** Levels ascend by price on both sides, so a cut-off drops the highest prices: on the bid side the best. */
  lemma {:induction false} SnapshotAscends(s: seq<Order>, rem: Remaining, canceled: set<Order>, i: nat, j: nat)
    requires Ascending(s) && forall x :: 0 <= x < |s| ==> s[x] in rem
    requires i < j < |LiveLevels(s, rem, canceled)|
    ensures LiveLevels(s, rem, canceled)[i].price <= LiveLevels(s, rem, canceled)[j].price
    decreases |s|
  {
    var rest := LiveLevels(s[1..], rem, canceled);
    if Dead(s[0], rem, canceled) {
      SnapshotAscends(s[1..], rem, canceled, i, j);
    } else if i > 0 {
      SnapshotAscends(s[1..], rem, canceled, i - 1, j - 1);
    } else {
      var k := LevelSource(s[1..], rem, canceled, j - 1);
      assert s[1..][k] == s[k + 1] && Less(s[0].SortKey(), s[k + 1].SortKey());
    }
  }

  /** Every level comes from a live order of the sequence. */
  lemma {:induction false} LevelSource(s: seq<Order>, rem: Remaining, canceled: set<Order>, j: nat) returns (k: nat)
    requires forall x :: 0 <= x < |s| ==> s[x] in rem
    requires j < |LiveLevels(s, rem, canceled)|
    ensures k < |s| && !Dead(s[k], rem, canceled) && LiveLevels(s, rem, canceled)[j] == Level(s[k].price, rem[s[k]])
    decreases |s|
  {
    if Dead(s[0], rem, canceled) {
      k := LevelSource(s[1..], rem, canceled, j);
      k := k + 1;
    } else if j > 0 {
      k := LevelSource(s[1..], rem, canceled, j - 1);
      k := k + 1;
    } else {
      k := 0;
    }
  }

  /** Cut off after `n` levels, a snapshot still shows the highest price if and only if all levels fit or the last
      level shown is already at that price. */
  lemma {:induction false} HighestShown(s: seq<Order>, rem: Remaining, canceled: set<Order>, n: nat)
    requires Ascending(s) && forall x :: 0 <= x < |s| ==> s[x] in rem
    requires n >= 1 && LiveLevels(s, rem, canceled) != []
    ensures var l := LiveLevels(s, rem, canceled);
            Shows(UpTo(l, n), l[|l| - 1].price) <==> |l| <= n || l[n - 1].price == l[|l| - 1].price
  {
    var l := LiveLevels(s, rem, canceled);
    if |l| <= n {
      assert UpTo(l, n)[|l| - 1] == l[|l| - 1];
    } else {
      SnapshotAscends(s, rem, canceled, n - 1, |l| - 1);
      assert UpTo(l, n)[n - 1] == l[n - 1];
      forall i | 0 <= i < n ensures l[i].price <= l[n - 1].price {
        if i < n - 1 {
          SnapshotAscends(s, rem, canceled, i, n - 1);
        }
      }
    }
  }

  ghost predicate Shows(levels: seq<Level>, price: real) {
    exists i :: 0 <= i < |levels| && levels[i].price == price
  }

  /** The highest live price is that of the best live order: no live order is above it. */
  lemma {:induction false} HighestIsBest(s: seq<Order>, rem: Remaining, canceled: set<Order>, k: nat)
    requires Ascending(s) && forall x :: 0 <= x < |s| ==> s[x] in rem
    requires k < |s| && !Dead(s[k], rem, canceled)
    ensures var l := LiveLevels(s, rem, canceled);
            l != [] && s[k].price <= l[|l| - 1].price
    decreases |s|
  {
    var l := LiveLevels(s, rem, canceled);
    if k == 0 {
      if |l| > 1 {
        SnapshotAscends(s, rem, canceled, 0, |l| - 1);
      }
    } else {
      assert s[1..][k - 1] == s[k];
      HighestIsBest(s[1..], rem, canceled, k - 1);
    }
  }

  lemma {:induction false} AllLiveLevels(s: seq<Order>, rem: Remaining)
    requires forall x :: 0 <= x < |s| ==> s[x] in rem && rem[s[x]] > 0
    ensures var l := LiveLevels(s, rem, {});
            |l| == |s| && forall x :: 0 <= x < |s| ==> l[x] == Level(s[x].price, rem[s[x]])
  {
    if s != [] {
      AllLiveLevels(s[1..], rem);
      var rest := LiveLevels(s[1..], rem, {});
      assert forall x :: 0 < x < |s| ==> LiveLevels(s, rem, {})[x] == rest[x - 1] && s[1..][x - 1] == s[x];
    }
  }

  /** 201 live bids at 1, 2, ..., 201: the snapshot ends at 200 and the best bid is not shown. */
  lemma {:induction false} BestBidMissing(s: seq<Order>, rem: Remaining)
    requires |s| == 201
    requires forall x :: 0 <= x < |s| ==> s[x].isBuy && s[x].price == (x + 1) as real && s[x] in rem && rem[s[x]] == 1
    ensures !Shows(UpTo(LiveLevels(s, rem, {}), MAX_SNAPSHOT_ORDERS), s[200].price)
    ensures |UpTo(LiveLevels(s, rem, {}), MAX_SNAPSHOT_ORDERS)| == 200
  {
    AllLiveLevels(s, rem);
    HighestShown(s, rem, {}, MAX_SNAPSHOT_ORDERS);
  }

  // ----- building one -----

  class BookSnapshot {
    const maxOrders: nat
    const bidPrices: array<real>
    const bidQuantities: array<int>
    const askPrices: array<real>
    const askQuantities: array<int>
    var numBids: nat
    var numAsks: nat

    ghost predicate Valid()
      reads this
    {
      && bidPrices != askPrices && bidQuantities != askQuantities
      && bidPrices.Length == bidQuantities.Length == askPrices.Length == askQuantities.Length == maxOrders
      && numBids <= maxOrders && numAsks <= maxOrders
    }

    ghost function Bids(): (s: seq<Level>)
      requires Valid()
      reads this, bidPrices, bidQuantities
      ensures |s| == numBids
    {
      seq(numBids, i requires 0 <= i < numBids && Valid() reads this, bidPrices, bidQuantities =>
        Level(bidPrices[i], bidQuantities[i]))
    }

    ghost function Asks(): (s: seq<Level>)
      requires Valid()
      reads this, askPrices, askQuantities
      ensures |s| == numAsks
    {
      seq(numAsks, i requires 0 <= i < numAsks && Valid() reads this, askPrices, askQuantities =>
        Level(askPrices[i], askQuantities[i]))
    }

    /** One side as it is shown. */
    ghost function Shown(isBuy: bool): (s: seq<Level>)
      requires Valid()
      reads this, bidPrices, bidQuantities, askPrices, askQuantities
      ensures |s| <= maxOrders
    {
      if isBuy then Bids() else Asks()
    }

    constructor (maxOrders: nat)
      ensures Valid() && this.maxOrders == maxOrders && Bids() == [] && Asks() == []
      ensures fresh(bidPrices) && fresh(bidQuantities) && fresh(askPrices) && fresh(askQuantities)
    {
      this.maxOrders := maxOrders;
      var bp, bq := new real[maxOrders], new int[maxOrders];
      var ap, aq := new real[maxOrders], new int[maxOrders];
      bidPrices, bidQuantities, askPrices, askQuantities := bp, bq, ap, aq;
      numBids, numAsks := 0, 0;
    }

    /** The traversal callback: appends a live order to its side while there is room. */
    method CollectOrder(order: Order)
      requires Valid()
      modifies this`numBids, this`numAsks, bidPrices, bidQuantities, askPrices, askQuantities
      ensures Valid()
      ensures var live := !order.canceled && order.remaining > 0;
              var level := Level(order.price, order.remaining);
              && Shown(!order.isBuy) == old(Shown(!order.isBuy))
              && Shown(order.isBuy) == if live then UpTo(old(Shown(order.isBuy)) + [level], maxOrders)
                                       else old(Shown(order.isBuy))
    {
      if order.canceled || order.remaining <= 0 {
        return;
      }
      if order.isBuy {
        if numBids < maxOrders {
          bidPrices[numBids] := order.price;
          bidQuantities[numBids] := order.remaining;
          numBids := numBids + 1;
        }
      } else {
        if numAsks < maxOrders {
          askPrices[numAsks] := order.price;
          askQuantities[numAsks] := order.remaining;
          numAsks := numAsks + 1;
        }
      }
    }
  }

  /** The callback applied along a traversal of one side. */
  method CollectAll(snap: BookSnapshot, book: Books.OrderBook, visited: seq<Order>, ghost isBuy: bool)
    requires snap.Valid() && book.InStep()
    requires forall i :: 0 <= i < |visited| ==> visited[i] in book.rem && visited[i].isBuy == isBuy
    modifies snap`numBids, snap`numAsks, snap.bidPrices, snap.bidQuantities, snap.askPrices, snap.askQuantities
    ensures snap.Valid() && book.InStep() && snap.Shown(!isBuy) == old(snap.Shown(!isBuy))
    ensures var levels := LiveLevels(visited, book.rem, book.canceled);
            snap.Shown(isBuy) == UpTo(old(snap.Shown(isBuy)) + levels, snap.maxOrders)
  {
    ghost var rem, canceled := book.rem, book.canceled;
    ghost var start, other := snap.Shown(isBuy), snap.Shown(!isBuy);
    ghost var levels := [];
    assert start + [] == start;
    for i := 0 to |visited|
      invariant snap.Valid() && book.InStep() && snap.Shown(!isBuy) == other
      invariant levels == LiveLevels(visited[..i], rem, canceled)
      invariant snap.Shown(isBuy) == UpTo(start + levels, snap.maxOrders)
    {
      var order := visited[i];
      ghost var next := LiveLevels([order], rem, canceled);
      CollectLevel(snap, book, order);
      LiveExtends(visited, i, rem, canceled);
      UpToAppend(start, levels, next, snap.maxOrders);
      levels := levels + next;
    }
    assert visited[..|visited|] == visited;
  }

  /** The callback on one order of the book. */
  method CollectLevel(snap: BookSnapshot, ghost book: Books.OrderBook, order: Order)
    requires snap.Valid() && book.InStep() && order in book.rem
    modifies snap`numBids, snap`numAsks, snap.bidPrices, snap.bidQuantities, snap.askPrices, snap.askQuantities
    ensures snap.Valid() && book.InStep() && snap.Shown(!order.isBuy) == old(snap.Shown(!order.isBuy))
    ensures var levels := LiveLevels([order], book.rem, book.canceled);
            snap.Shown(order.isBuy) == UpTo(old(snap.Shown(order.isBuy)) + levels, snap.maxOrders)
  {
    ghost var rem, canceled := book.rem, book.canceled;
    assert [order][1..] == [] && LiveLevels([], rem, canceled) == [];
    snap.CollectOrder(order);
  }

  lemma {:induction false} LiveExtends(s: seq<Order>, i: nat, rem: Remaining, canceled: set<Order>)
    requires i < |s| && forall x :: 0 <= x < |s| ==> s[x] in rem
    ensures LiveLevels(s[..i + 1], rem, canceled) ==
            LiveLevels(s[..i], rem, canceled) + LiveLevels([s[i]], rem, canceled)
  {
    assert s[..i + 1] == s[..i] + [s[i]];
    LiveConcat(s[..i], [s[i]], rem, canceled);
  }

  lemma {:induction false} UpToAppend(s: seq<Level>, a: seq<Level>, b: seq<Level>, n: nat)
    ensures UpTo(UpTo(s + a, n) + b, n) == UpTo(s + (a + b), n)
  {
  }

  /** The highest price of `levels` is shown if and only if they all fit or the last one that fits is at that price. */
  ghost predicate ShowsBest(shown: seq<Level>, levels: seq<Level>, n: nat)
    requires n >= 1
  {
    levels != [] ==>
      (Shows(shown, levels[|levels| - 1].price) <==>
       |levels| <= n || levels[n - 1].price == levels[|levels| - 1].price)
  }

  lemma {:induction false} BookFacts(bk: Book)
    requires WellFormed(bk)
    ensures WellSided(PoolOf(bk))
    ensures var l := LiveLevels(PoolOf(bk).bids, bk.rem, bk.canceled);
            ShowsBest(UpTo(l, MAX_SNAPSHOT_ORDERS), l, MAX_SNAPSHOT_ORDERS)
  {
    PoolFacts(bk);
    if LiveLevels(PoolOf(bk).bids, bk.rem, bk.canceled) != [] {
      HighestShown(PoolOf(bk).bids, bk.rem, bk.canceled, MAX_SNAPSHOT_ORDERS);
    }
  }

  /** The snapshot of a book: each side's live orders in order, cut off at the fixed number. */
  method BuildSnapshot(book: Books.OrderBook) returns (snap: BookSnapshot)
    requires book.Valid()
    ensures fresh(snap) && snap.Valid() && WellSided(PoolOf(book.View()))
    ensures var bk := book.View();
            && snap.Bids() == UpTo(LiveLevels(PoolOf(bk).bids, bk.rem, bk.canceled), MAX_SNAPSHOT_ORDERS)
            && snap.Asks() == UpTo(LiveLevels(PoolOf(bk).asks, bk.rem, bk.canceled), MAX_SNAPSHOT_ORDERS)
    ensures var bk := book.View();
            ShowsBest(snap.Bids(), LiveLevels(PoolOf(bk).bids, bk.rem, bk.canceled), MAX_SNAPSHOT_ORDERS)
  {
    BookFacts(book.View());
    var bids := book.TraverseOrders(true);
    var asks := book.TraverseOrders(false);
    snap := FillSnapshot(book, bids, asks);
  }

  method FillSnapshot(book: Books.OrderBook, bids: seq<Order>, asks: seq<Order>) returns (snap: BookSnapshot)
    requires book.InStep()
    requires forall i :: 0 <= i < |bids| ==> bids[i] in book.rem && bids[i].isBuy
    requires forall i :: 0 <= i < |asks| ==> asks[i] in book.rem && !asks[i].isBuy
    ensures fresh(snap) && snap.Valid()
    ensures snap.Bids() == UpTo(LiveLevels(bids, book.rem, book.canceled), MAX_SNAPSHOT_ORDERS)
    ensures snap.Asks() == UpTo(LiveLevels(asks, book.rem, book.canceled), MAX_SNAPSHOT_ORDERS)
  {
    snap := new BookSnapshot(MAX_SNAPSHOT_ORDERS);
    CollectAll(snap, book, bids, true);
    CollectAll(snap, book, asks, false);
  }
}
