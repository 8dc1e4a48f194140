/** The bounded trade history of src/client/trade_history.c: its value as a sequence, head first, and the linked
    list itself. */
module TradeHistory {
  import opened Amounts
  import opened Lists

  datatype TradeMessage = TradeMessage(symbol: string, price: real, quantity: int)

  // ----- what is kept -----

  /** The list after one more trade: a full list first loses its head, so an empty one must not be full. */
  function AddTrade(h: seq<TradeMessage>, t: TradeMessage, max: int): seq<TradeMessage>
    requires h == [] ==> max >= 1
  {
    if |h| >= max then [t] + h[1..] else [t] + h
  }

  function AddAll(h: seq<TradeMessage>, ts: seq<TradeMessage>, max: int): (r: seq<TradeMessage>)
    requires h == [] && ts != [] ==> max >= 1
    ensures r == [] ==> h == []
    decreases |ts|
  {
    if ts == [] then h else AddAll(AddTrade(h, ts[0], max), ts[1..], max)
  }

  function Reverse(s: seq<TradeMessage>): (r: seq<TradeMessage>)
    ensures |r| == |s| && forall i :: 0 <= i < |s| ==> r[i] == s[|s| - 1 - i]
  {
    seq(|s|, i requires 0 <= i < |s| => s[|s| - 1 - i])
  }

  lemma {:induction false} AddAllSplits(h: seq<TradeMessage>, ts: seq<TradeMessage>, t: TradeMessage, max: int)
    requires h == [] ==> max >= 1
    ensures AddAll(h, ts + [t], max) == AddTrade(AddAll(h, ts, max), t, max)
    decreases |ts|
  {
    if ts == [] {
      assert AddAll(AddTrade(h, t, max), [], max) == AddTrade(h, t, max);
      assert ([] + [t])[1..] == [];
    } else {
      assert (ts + [t])[0] == ts[0] && (ts + [t])[1..] == ts[1..] + [t];
      AddAllSplits(AddTrade(h, ts[0], max), ts[1..], t, max);
    }
  }

  /** After any number of trades: all of them, newest first, while they fit; beyond that the newest trade followed
      by the first max - 1 trades ever added, because the entry that is evicted is always the previous newest. */
  lemma {:induction false} HistoryContents(ts: seq<TradeMessage>, max: nat)
    requires max >= 1
    ensures AddAll([], ts, max) ==
            if |ts| <= max then Reverse(ts) else [ts[|ts| - 1]] + Reverse(ts[..max - 1])
    decreases |ts|
  {
    if ts != [] {
      var n := |ts|;
      var front, t := ts[..n - 1], ts[n - 1];
      assert ts == front + [t];
      HistoryContents(front, max);
      AddAllSplits([], front, t, max);
      if n > max {
        assert front[..max - 1] == ts[..max - 1];
        if n - 1 == max {
          assert Reverse(front)[1..] == Reverse(ts[..max - 1]);
        }
      }
    }
  }

  /** The history is the latest `max` trades, as the word "oldest" at the eviction suggests, exactly while the
      trades fit or when a single trade is kept. */
  lemma {:induction false} KeepsLatest(ts: seq<TradeMessage>, max: nat)
    requires max >= 1 && forall i, j :: 0 <= i < j < |ts| ==> ts[i] != ts[j]
    ensures var latest := if |ts| <= max then ts else ts[|ts| - max..];
            AddAll([], ts, max) == Reverse(latest) <==> |ts| <= max || max == 1
  {
    HistoryContents(ts, max);
    var n := |ts|;
    if n > max {
      var kept, latest := AddAll([], ts, max), ts[n - max..];
      if max == 1 {
        assert kept == Reverse(latest);
      } else {
        assert kept[1] == ts[max - 2];
        assert Reverse(latest)[1] == ts[n - 2];
      }
    }
  }

  /** Three trades into a history of two: the second, not the first, is gone. */
  lemma {:induction false} EvictsNewest(t1: TradeMessage, t2: TradeMessage, t3: TradeMessage)
    ensures AddAll([], [t1, t2, t3], 2) == [t3, t1]
  {
    HistoryContents([t1, t2, t3], 2);
  }

  // ----- what is computed from it -----

  function Volume(h: seq<TradeMessage>, symbol: string): int {
    if h == [] then 0 else (if h[0].symbol == symbol then h[0].quantity else 0) + Volume(h[1..], symbol)
  }

  function Value(h: seq<TradeMessage>, symbol: string): real {
    if h == [] then 0.0
    else (if h[0].symbol == symbol then Cost(h[0].price, h[0].quantity) else 0.0) + Value(h[1..], symbol)
  }

  function Vwap(h: seq<TradeMessage>, symbol: string): real {
    if Volume(h, symbol) > 0 then Value(h, symbol) / (Volume(h, symbol) as real) else 0.0
  }

  /** A single trade of positive quantity has its own price as average, and no volume in any other symbol. */
  lemma {:induction false} VwapOfOne(t: TradeMessage, symbol: string)
    ensures Volume([t], symbol) == if t.symbol == symbol then t.quantity else 0
    ensures t.symbol == symbol && t.quantity > 0 ==> Vwap([t], symbol) == t.price
  {
    assert [t][1..] == [];
    assert Volume([], symbol) == 0 && Value([], symbol) == 0.0;
    if t.symbol == symbol && t.quantity > 0 {
      QuotientOfProduct(t.price, t.quantity as real);
    }
  }

  lemma {:induction false} QuotientOfProduct(p: real, q: real)
    requires q > 0.0
    ensures p * q / q == p
  {
  }

  lemma {:induction false} HistoriesAdd(a: seq<TradeMessage>, b: seq<TradeMessage>, symbol: string)
    ensures Volume(a + b, symbol) == Volume(a, symbol) + Volume(b, symbol)
    ensures Value(a + b, symbol) == Value(a, symbol) + Value(b, symbol)
  {
    if a == [] {
      assert a + b == b;
    } else {
      assert (a + b)[1..] == a[1..] + b;
      HistoriesAdd(a[1..], b, symbol);
    }
  }

  /** The average weighs by volume: over two histories volumes add, and so do the products of average and volume. */
  lemma {:induction false} VwapWeighs(a: seq<TradeMessage>, b: seq<TradeMessage>, symbol: string)
    requires Volume(a, symbol) > 0 && Volume(b, symbol) > 0
    ensures Volume(a + b, symbol) == Volume(a, symbol) + Volume(b, symbol)
    ensures Vwap(a + b, symbol) * (Volume(a + b, symbol) as real) ==
            Vwap(a, symbol) * (Volume(a, symbol) as real) + Vwap(b, symbol) * (Volume(b, symbol) as real)
  {
    HistoriesAdd(a, b, symbol);
  }

  /** Trades of other symbols do not change the average, and without volume it is 0. */
  lemma {:induction false} VwapIgnoresOthers(a: seq<TradeMessage>, b: seq<TradeMessage>, symbol: string)
    requires forall i :: 0 <= i < |b| ==> b[i].symbol != symbol
    ensures Vwap(a + b, symbol) == Vwap(a, symbol) == Vwap(b + a, symbol) && Vwap(b, symbol) == 0.0
  {
    HistoriesAdd(a, b, symbol);
    HistoriesAdd(b, a, symbol);
    NoVolume(b, symbol);
  }

  lemma {:induction false} NoVolume(h: seq<TradeMessage>, symbol: string)
    requires forall i :: 0 <= i < |h| ==> h[i].symbol != symbol
    ensures Volume(h, symbol) == 0 && Value(h, symbol) == 0.0
  {
    if h != [] {
      NoVolume(h[1..], symbol);
    }
  }

  /** 30 traded at 1 and then 10 at 5 average 2. */
  lemma {:induction false} VwapExample(symbol: string)
    ensures Vwap([TradeMessage(symbol, 5.0, 10), TradeMessage(symbol, 1.0, 30)], symbol) == 2.0
  {
    var a, b := TradeMessage(symbol, 5.0, 10), TradeMessage(symbol, 1.0, 30);
    assert [a, b] == [a] + [b];
    VwapOfOne(a, symbol);
    VwapOfOne(b, symbol);
    VwapWeighs([a], [b], symbol);
  }

  lemma {:induction false} ValueBounds(h: seq<TradeMessage>, symbol: string, lo: real, hi: real)
    requires forall i :: 0 <= i < |h| && h[i].symbol == symbol ==> h[i].quantity > 0 && lo <= h[i].price <= hi
    ensures Volume(h, symbol) >= 0
    ensures lo * (Volume(h, symbol) as real) <= Value(h, symbol) <= hi * (Volume(h, symbol) as real)
  {
    if h != [] {
      ValueBounds(h[1..], symbol, lo, hi);
      if h[0].symbol == symbol {
        var q, v := h[0].quantity as real, Volume(h[1..], symbol) as real;
        assert Volume(h, symbol) as real == q + v;
        WeightedBounds(h[0].price, q, v, Value(h[1..], symbol), lo, hi);
      }
    }
  }

  lemma {:induction false} WeightedBounds(p: real, q: real, v: real, value: real, lo: real, hi: real)
    requires lo <= p <= hi && q >= 0.0 && lo * v <= value <= hi * v
    ensures lo * (q + v) <= p * q + value <= hi * (q + v)
  {
  }

  lemma {:induction false} VolumePositive(h: seq<TradeMessage>, symbol: string, k: nat)
    requires forall i :: 0 <= i < |h| && h[i].symbol == symbol ==> h[i].quantity > 0
    requires k < |h| && h[k].symbol == symbol
    ensures Volume(h, symbol) > 0
  {
    if k > 0 {
      VolumePositive(h[1..], symbol, k - 1);
    } else {
      VolumeNonNegative(h[1..], symbol);
    }
  }

  lemma {:induction false} VolumeNonNegative(h: seq<TradeMessage>, symbol: string)
    requires forall i :: 0 <= i < |h| && h[i].symbol == symbol ==> h[i].quantity > 0
    ensures Volume(h, symbol) >= 0
  {
    if h != [] {
      VolumeNonNegative(h[1..], symbol);
    }
  }

  /** With positive quantities the volume-weighted price lies between the least and the greatest kept price. */
  lemma {:induction false} VwapBetweenPrices(h: seq<TradeMessage>, symbol: string, lo: real, hi: real, k: nat)
    requires forall i :: 0 <= i < |h| && h[i].symbol == symbol ==> h[i].quantity > 0 && lo <= h[i].price <= hi
    requires k < |h| && h[k].symbol == symbol
    ensures lo <= Vwap(h, symbol) <= hi
  {
    ValueBounds(h, symbol, lo, hi);
    VolumePositive(h, symbol, k);
    QuotientBounds(Value(h, symbol), Volume(h, symbol) as real, lo, hi);
  }

  lemma {:induction false} QuotientBounds(a: real, b: real, lo: real, hi: real)
    requires b > 0.0 && lo * b <= a <= hi * b
    ensures lo <= a / b <= hi
  {
  }

  class History {
    const maxTrades: int
    const trades: LinkedList<TradeMessage>
    var tradeCount: int

    ghost predicate Valid()
      reads this, trades, trades.spine
    {
      trades.Valid() && tradeCount == |View()|
    }

    ghost function View(): seq<TradeMessage>
      reads this, trades, trades.spine
    {
      trades.Contents()
    }

    constructor (maxTrades: int)
      ensures Valid() && View() == [] && this.maxTrades == maxTrades
      ensures fresh(trades)
    {
      this.maxTrades := maxTrades;
      trades := new LinkedList();
      tradeCount := 0;
    }

    method Add(trade: TradeMessage)
      requires Valid() && (View() == [] ==> maxTrades >= 1)
      modifies this, trades
      ensures Valid() && View() == AddTrade(old(View()), trade, maxTrades)
      ensures old(|View()|) <= maxTrades ==> |View()| <= maxTrades
      ensures forall c :: c in trades.spine ==> c in old(trades.spine) || fresh(c)
    {
      if tradeCount >= maxTrades {
        trades.Unlink(null, trades.head, 0);
        tradeCount := tradeCount - 1;
      }
      trades.Prepend(trade);
      tradeCount := tradeCount + 1;
    }

    method GetVwap(symbol: string) returns (vwap: real)
      requires Valid()
      ensures vwap == Vwap(View(), symbol)
    {
      var volumePrice, totalVolume := 0.0, 0;
      var current := trades.head;
      ghost var i := 0;
      while current != null
        invariant 0 <= i <= |View()| && current == At(trades.spine, i)
        invariant totalVolume + Volume(View()[i..], symbol) == Volume(View(), symbol)
        invariant volumePrice + Value(View()[i..], symbol) == Value(View(), symbol)
        decreases |View()| - i
      {
        if current.data.symbol == symbol {
          volumePrice := volumePrice + Cost(current.data.price, current.data.quantity);
          totalVolume := totalVolume + current.data.quantity;
        }
        assert View()[i..][1..] == View()[i + 1..];
        current, i := current.next, i + 1;
      }
      vwap := if totalVolume > 0 then volumePrice / (totalVolume as real) else 0.0;
    }
  }
}
