/** The client's ledger of active orders, src/client/order_entry.c: its value with the records as a sequence, newest
    first, and the object with the linked list itself. */
module OrderEntry {
  import opened Amounts
  import opened Lists

  datatype OrderRecord = OrderRecord(orderId: string, symbol: string, price: real, quantity: int, isBuy: bool)

  datatype Ledger = Ledger(records: seq<OrderRecord>, activeCount: int, totalNotional: real)

  datatype Limits = Limits(maxOrders: int, maxNotional: real)

  datatype Op = Submit(symbol: string, price: real, quantity: int, isBuy: bool) | Cancel(orderId: string)

  const EMPTY_LEDGER := Ledger([], 0, 0.0)

  function TotalOf(records: seq<OrderRecord>): real {
    if records == [] then 0.0 else Cost(records[0].price, records[0].quantity) + TotalOf(records[1..])
  }

  function Digits(n: nat): string {
    var d := ['0', '1', '2', '3', '4', '5', '6', '7', '8', '9'][n % 10];
    if n < 10 then [d] else Digits(n / 10) + [d]
  }

  function OrderId(n: nat): string {
    "ORD" + Digits(n)
  }

  // ----- operations -----

  predicate Accepts(l: Ledger, limits: Limits, price: real, quantity: int) {
    l.activeCount < limits.maxOrders && l.totalNotional + Cost(price, quantity) <= limits.maxNotional
  }

  /** The identifier is made from the number of active orders, not from a running number. */
  function SubmitOrder(l: Ledger, limits: Limits, symbol: string, price: real, quantity: int, isBuy: bool): Ledger
    requires l.activeCount >= 0
  {
    if !Accepts(l, limits, price, quantity) then l
    else Ledger([OrderRecord(OrderId(l.activeCount + 1), symbol, price, quantity, isBuy)] + l.records,
                l.activeCount + 1, l.totalNotional + Cost(price, quantity))
  }

  /** The position of the newest record with the id, or the length. */
  function FindRecord(records: seq<OrderRecord>, orderId: string): (i: nat)
    ensures i <= |records| && forall j :: 0 <= j < i ==> records[j].orderId != orderId
    ensures i < |records| ==> records[i].orderId == orderId
  {
    if records == [] || records[0].orderId == orderId then 0 else 1 + FindRecord(records[1..], orderId)
  }

  function CancelOrder(l: Ledger, orderId: string): Ledger {
    var i := FindRecord(l.records, orderId);
    if i == |l.records| then l
    else
      var r := l.records[i];
      Ledger(l.records[..i] + l.records[i + 1..], l.activeCount - 1, l.totalNotional - Cost(r.price, r.quantity))
  }

  // ----- runs -----

  /** The counters describe the list. */
  ghost predicate Counted(l: Ledger) {
    l.activeCount == |l.records| && l.totalNotional == TotalOf(l.records)
  }

  ghost predicate Within(l: Ledger, limits: Limits) {
    l.activeCount <= limits.maxOrders && l.totalNotional <= limits.maxNotional
  }

  ghost predicate NonNegativeRecords(records: seq<OrderRecord>) {
    forall i :: 0 <= i < |records| ==> Cost(records[i].price, records[i].quantity) >= 0.0
  }

  lemma {:induction false} TotalSplits(a: seq<OrderRecord>, b: seq<OrderRecord>)
    ensures TotalOf(a + b) == TotalOf(a) + TotalOf(b)
  {
    if a == [] {
      assert a + b == b;
    } else {
      assert (a + b)[1..] == a[1..] + b;
      TotalSplits(a[1..], b);
    }
  }

  /** A cancel keeps the counters exact; it takes a ledger over its limits if and only if it takes out a record so
      negative that the others are over. */
  lemma {:induction false} CancelKeeps(l: Ledger, limits: Limits, orderId: string)
    requires Counted(l) && Within(l, limits)
    ensures Counted(CancelOrder(l, orderId))
    ensures var i := FindRecord(l.records, orderId);
            !Within(CancelOrder(l, orderId), limits) <==>
            i < |l.records| && Cost(l.records[i].price, l.records[i].quantity) < l.totalNotional - limits.maxNotional
  {
    CancelCounted(l, orderId);
  }

  lemma {:induction false} CancelCounted(l: Ledger, orderId: string)
    requires Counted(l)
    ensures Counted(CancelOrder(l, orderId))
  {
    var s, i := l.records, FindRecord(l.records, orderId);
    if i < |s| {
      TotalSplits(s[..i], s[i + 1..]);
      TotalSplits([s[i]], s[i + 1..]);
      TotalSplits(s[..i], [s[i]] + s[i + 1..]);
      assert s == s[..i] + ([s[i]] + s[i + 1..]);
    }
  }

  function Step(l: Ledger, limits: Limits, op: Op): Ledger
    requires l.activeCount >= 0
  {
    match op
    case Submit(symbol, price, quantity, isBuy) => SubmitOrder(l, limits, symbol, price, quantity, isBuy)
    case Cancel(id) => CancelOrder(l, id)
  }

  /** What a step does. A submit is taken exactly while both limits leave room, and then puts a record of what was
      submitted in front. A cancel takes out the newest record with the id. Either adjusts the counters by that
      record. */
  lemma {:induction false} StepEffect(l: Ledger, limits: Limits, op: Op)
    requires l.activeCount >= 0
    ensures var l' := Step(l, limits, op);
            match op
            case Submit(symbol, price, quantity, isBuy) =>
              if l.activeCount < limits.maxOrders && l.totalNotional + Cost(price, quantity) <= limits.maxNotional
              then
                && |l'.records| == |l.records| + 1 && l'.records[1..] == l.records
                && l'.records[0] == OrderRecord(OrderId(l.activeCount + 1), symbol, price, quantity, isBuy)
                && l'.activeCount == l.activeCount + 1 && l'.totalNotional == l.totalNotional + Cost(price, quantity)
              else l' == l
            case Cancel(id) =>
              && ((forall i :: 0 <= i < |l.records| ==> l.records[i].orderId != id) ==> l' == l)
              && forall i :: 0 <= i < |l.records| && FirstWith(l.records, id, i) ==>
                   && l'.records == l.records[..i] + l.records[i + 1..] && l'.activeCount == l.activeCount - 1
                   && l'.totalNotional == l.totalNotional - Cost(l.records[i].price, l.records[i].quantity)
  {
    if op.Cancel? {
      forall i | 0 <= i < |l.records| && FirstWith(l.records, op.orderId, i)
        ensures FindRecord(l.records, op.orderId) == i
      {
        var k := FindRecord(l.records, op.orderId);
        assert !(k < i) && !(i < k);
      }
    }
  }

  ghost predicate FirstWith(records: seq<OrderRecord>, id: string, i: nat)
    requires i < |records|
  {
    records[i].orderId == id && forall j :: 0 <= j < i ==> records[j].orderId != id
  }

  lemma {:induction false} StepCounted(l: Ledger, limits: Limits, op: Op)
    requires Counted(l)
    ensures Counted(Step(l, limits, op))
  {
    if op.Cancel? {
      CancelCounted(l, op.orderId);
    }
  }

  /** Over any submits and cancels the counters stay exact; the empty ledger is where a run starts. */
  ghost function Run(l: Ledger, limits: Limits, ops: seq<Op>): (r: Ledger)
    requires Counted(l)
    ensures Counted(r)
    decreases |ops|
  {
    if ops == [] then l
    else
      StepCounted(l, limits, ops[0]);
      Run(Step(l, limits, ops[0]), limits, ops[1..])
  }

  ghost predicate NonNegative(ops: seq<Op>) {
    forall i :: 0 <= i < |ops| && ops[i].Submit? ==> Cost(ops[i].price, ops[i].quantity) >= 0.0
  }

  /** Over any submits of non-negative notional and cancels, the limits hold. */
  lemma {:induction false} RunWithin(l: Ledger, limits: Limits, ops: seq<Op>)
    requires Counted(l) && Within(l, limits) && NonNegativeRecords(l.records) && NonNegative(ops)
    ensures Within(Run(l, limits, ops), limits) && NonNegativeRecords(Run(l, limits, ops).records)
    decreases |ops|
  {
    if ops != [] {
      var op := ops[0];
      if op.Cancel? {
        CancelKeeps(l, limits, op.orderId);
      }
      StepCounted(l, limits, op);
      RunWithin(Step(l, limits, op), limits, ops[1..]);
    }
  }

  /** A limit of 0: an order of notional -1 makes room for one of 1, and its cancel leaves the ledger at 1. */
  lemma {:induction false} NegativeOrderLiftsLimit()
    ensures var limits := Limits(2, 0.0);
            var l1 := SubmitOrder(EMPTY_LEDGER, limits, "AAPL", 1.0, -1, true);
            var l2 := SubmitOrder(l1, limits, "AAPL", 1.0, 1, true);
            var l3 := CancelOrder(l2, "ORD1");
            Within(l2, limits) && |l3.records| == 1 && l3.totalNotional == 1.0 && !Within(l3, limits)
  {
    var limits := Limits(2, 0.0);
    var l1 := SubmitOrder(EMPTY_LEDGER, limits, "AAPL", 1.0, -1, true);
    assert l1.totalNotional == -1.0;
    var l2 := SubmitOrder(l1, limits, "AAPL", 1.0, 1, true);
    assert l2.records[0].orderId == "ORD2" && l2.records[1].orderId == "ORD1";
    assert FindRecord(l2.records, "ORD1") == 1;
  }

  // ----- identifiers -----

  ghost predicate DistinctIds(records: seq<OrderRecord>) {
    forall i, j :: 0 <= i < j < |records| ==> records[i].orderId != records[j].orderId
  }

  lemma {:induction false} DigitsInjective(m: nat, n: nat)
    requires Digits(m) == Digits(n)
    ensures m == n
    decreases m
  {
    var s, t := Digits(m), Digits(n);
    LastDigit(m);
    LastDigit(n);
    if m >= 10 && n >= 10 {
      assert Digits(m / 10) == s[..|s| - 1] == Digits(n / 10);
      DigitsInjective(m / 10, n / 10);
    }
  }

  lemma {:induction false} LastDigit(n: nat)
    ensures |Digits(n)| >= 1 && (|Digits(n)| == 1 <==> n < 10)
    ensures Digits(n)[|Digits(n)| - 1] as int == '0' as int + n % 10
  {
    if n >= 10 {
      LastDigit(n / 10);
    }
  }

  lemma {:induction false} OrderIdInjective(m: nat, n: nat)
    ensures OrderId(m) == OrderId(n) <==> m == n
  {
    if OrderId(m) == OrderId(n) {
      assert Digits(m) == OrderId(m)[3..] == OrderId(n)[3..] == Digits(n);
      DigitsInjective(m, n);
    }
  }

  /** Some active order carries the identifier made from `k`. */
  ghost predicate InUse(s: seq<OrderRecord>, k: nat) {
    exists i :: 0 <= i < |s| && s[i].orderId == OrderId(k)
  }

  ghost predicate AllSubmits(ops: seq<Op>) {
    forall i :: 0 <= i < |ops| ==> ops[i].Submit?
  }

  /** A run of submits. */
  ghost function Submits(l: Ledger, limits: Limits, ops: seq<Op>): (r: Ledger)
    requires l.activeCount == |l.records| && AllSubmits(ops)
    ensures r.activeCount == |r.records| >= |l.records|
    ensures r.records[|r.records| - |l.records|..] == l.records
    decreases |ops|
  {
    if ops == [] then l else Submits(Step(l, limits, ops[0]), limits, ops[1..])
  }

  lemma {:induction false} PrefixUse(r: OrderRecord, s: seq<OrderRecord>, n: nat, k: nat)
    requires r.orderId == OrderId(n)
    ensures InUse([r] + s, k) <==> k == n || InUse(s, k)
    ensures DistinctIds(s) ==> (DistinctIds([r] + s) <==> !InUse(s, n))
  {
    OrderIdInjective(k, n);
    var s' := [r] + s;
    assert s'[0] == r && forall i :: 0 <= i < |s| ==> s'[i + 1] == s[i];
  }

  /** An accepted submit puts the next number into use, which repeats no identifier unless it was in use. */
  lemma {:induction false} AcceptedSubmit(l: Ledger, limits: Limits, op: Op)
    requires l.activeCount == |l.records| && op.Submit? && Step(l, limits, op) != l
    ensures var s, s' := l.records, Step(l, limits, op).records;
            && |s'| == |s| + 1 && s'[1..] == s && s'[0].orderId == OrderId(|s| + 1)
            && (forall k :: InUse(s', k) <==> k == |s| + 1 || InUse(s, k))
            && (DistinctIds(s) ==> (DistinctIds(s') <==> !InUse(s, |s| + 1)))
  {
    var s, s', n := l.records, Step(l, limits, op).records, |l.records| + 1;
    assert s' == [s'[0]] + s;
    forall k: nat ensures InUse(s', k) <==> k == n || InUse(s, k) {
      PrefixUse(s'[0], s, n, k);
    }
    PrefixUse(s'[0], s, n, n);
  }

  lemma {:induction false} RepeatsPersist(l: Ledger, limits: Limits, ops: seq<Op>)
    requires l.activeCount == |l.records| && AllSubmits(ops) && !DistinctIds(l.records)
    ensures !DistinctIds(Submits(l, limits, ops).records)
  {
    var s, s' := l.records, Submits(l, limits, ops).records;
    var i, j :| 0 <= i < j < |s| && s[i].orderId == s[j].orderId;
    var d := |s'| - |s|;
    assert s'[d..][i] == s'[d + i] && s'[d..][j] == s'[d + j];
  }

  /** None of the numbers above `lo` and up to `hi` is in use. */
  ghost predicate FreeBetween(s: seq<OrderRecord>, lo: nat, hi: nat) {
    forall k :: lo < k <= hi ==> !InUse(s, k)
  }

  /** A run of submits keeps identifiers distinct if and only if none of the numbers it hands out is in use: with
      OrderId(k) in use and k above the count, the (k - count)-th accepted submit repeats it. */
  lemma {:induction false} SubmitsDistinct(l: Ledger, limits: Limits, ops: seq<Op>)
    requires l.activeCount == |l.records| && AllSubmits(ops) && DistinctIds(l.records)
    ensures var s, s' := l.records, Submits(l, limits, ops).records;
            DistinctIds(s') <==> FreeBetween(s, |s|, |s'|)
    decreases |ops|
  {
    if ops != [] {
      var next := Step(l, limits, ops[0]);
      if next == l {
        SubmitsDistinct(l, limits, ops[1..]);
      } else {
        AcceptedSubmit(l, limits, ops[0]);
        if DistinctIds(next.records) {
          SubmitsDistinct(next, limits, ops[1..]);
        } else {
          RepeatsPersist(next, limits, ops[1..]);
        }
        SameNumbersFree(l.records, next.records, |Submits(l, limits, ops).records|);
      }
    }
  }

  lemma {:induction false} SameNumbersFree(s: seq<OrderRecord>, next: seq<OrderRecord>, hi: nat)
    requires |next| == |s| + 1 <= hi
    requires forall k :: InUse(next, k) <==> k == |s| + 1 || InUse(s, k)
    ensures FreeBetween(s, |s|, hi) <==> !InUse(s, |s| + 1) && FreeBetween(next, |next|, hi)
  {
  }

  /** Whatever is submitted from here on, no two active orders share an identifier. */
  ghost predicate StaysDistinct(l: Ledger, limits: Limits)
    requires l.activeCount == |l.records|
  {
    forall ops :: AllSubmits(ops) ==> DistinctIds(Submits(l, limits, ops).records)
  }

  /** While the limit on orders leaves room, some order is always accepted: one that costs nothing, or less. */
  lemma {:induction false} FreeSubmits(l: Ledger, limits: Limits, n: nat) returns (ops: seq<Op>)
    requires l.activeCount == |l.records| && |l.records| + n <= limits.maxOrders
    ensures AllSubmits(ops) && |Submits(l, limits, ops).records| == |l.records| + n
    decreases n
  {
    if n == 0 {
      ops := [];
    } else {
      var room := limits.maxNotional - l.totalNotional;
      var op := Submit("AAPL", if room < 0.0 then room else 0.0, 1, true);
      var rest := FreeSubmits(Step(l, limits, op), limits, n - 1);
      ops := [op] + rest;
      assert ops[1..] == rest;
    }
  }

  /** Identifiers stay distinct over every run of submits if and only if no number above the count, up to the limit on
      orders, is in use. */
  lemma {:induction false} StaysDistinctExactly(l: Ledger, limits: Limits)
    requires l.activeCount == |l.records| && DistinctIds(l.records)
    ensures StaysDistinct(l, limits) <==> forall k :: |l.records| < k <= limits.maxOrders ==> !InUse(l.records, k)
  {
    var s := l.records;
    if StaysDistinct(l, limits) {
      forall k | |s| < k <= limits.maxOrders ensures !InUse(s, k) {
        var ops := FreeSubmits(l, limits, k - |s|);
        SubmitsDistinct(l, limits, ops);
      }
    } else {
      var ops :| AllSubmits(ops) && !DistinctIds(Submits(l, limits, ops).records);
      SubmitsDistinct(l, limits, ops);
      SubmitsWithinLimit(l, limits, ops);
    }
  }

  lemma {:induction false} SubmitsWithinLimit(l: Ledger, limits: Limits, ops: seq<Op>)
    requires l.activeCount == |l.records| && AllSubmits(ops)
    ensures var s, s' := l.records, Submits(l, limits, ops).records;
            |s'| == |s| || |s'| <= limits.maxOrders
    decreases |ops|
  {
    if ops != [] {
      SubmitsWithinLimit(Step(l, limits, ops[0]), limits, ops[1..]);
    }
  }

  ghost predicate MadeFrom(orderId: string, m: nat) {
    exists k: nat :: 1 <= k <= m && orderId == OrderId(k)
  }

  /** The identifiers are made from numbers between 1 and m. */
  ghost predicate NumberedUpTo(s: seq<OrderRecord>, m: nat) {
    forall i :: 0 <= i < |s| ==> MadeFrom(s[i].orderId, m)
  }

  /** The active orders are numbered 1 to n, in some order. */
  ghost predicate Numbered(s: seq<OrderRecord>) {
    DistinctIds(s) && NumberedUpTo(s, |s|)
  }

  lemma {:induction false} NotAbove(s: seq<OrderRecord>, m: nat, n: nat)
    requires NumberedUpTo(s, m) && n > m
    ensures !InUse(s, n)
  {
    if InUse(s, n) {
      var i :| 0 <= i < |s| && s[i].orderId == OrderId(n);
      var k: nat :| 1 <= k <= m && s[i].orderId == OrderId(k);
      OrderIdInjective(k, n);
    }
  }

  lemma {:induction false} NumberedUpToLess(s: seq<OrderRecord>, m: nat)
    requires m >= 1 && NumberedUpTo(s, m) && !InUse(s, m)
    ensures NumberedUpTo(s, m - 1)
  {
    forall i | 0 <= i < |s| ensures MadeFrom(s[i].orderId, m - 1) {
      var k: nat :| 1 <= k <= m && s[i].orderId == OrderId(k);
      assert k != m;
    }
  }

  lemma {:induction false} CutIds(s: seq<OrderRecord>, i: nat, k: nat)
    requires DistinctIds(s) && i < |s|
    ensures var cut := s[..i] + s[i + 1..];
            && DistinctIds(cut) && (InUse(cut, k) <==> InUse(s, k) && s[i].orderId != OrderId(k))
            && (forall m :: NumberedUpTo(s, m) ==> NumberedUpTo(cut, m))
  {
    var cut := s[..i] + s[i + 1..];
    assert forall j :: 0 <= j < |cut| ==> cut[j] == s[if j < i then j else j + 1];
    if InUse(s, k) && s[i].orderId != OrderId(k) {
      var j :| 0 <= j < |s| && s[j].orderId == OrderId(k);
      assert cut[if j < i then j else j - 1] == s[j];
    }
  }

  /** Distinct identifiers made from numbers up to m belong to at most m orders. */
  lemma {:induction false} AtMost(s: seq<OrderRecord>, m: nat)
    requires DistinctIds(s) && NumberedUpTo(s, m)
    ensures |s| <= m
    decreases m
  {
    if s != [] {
      assert MadeFrom(s[0].orderId, m);
      if InUse(s, m) {
        var i :| 0 <= i < |s| && s[i].orderId == OrderId(m);
        CutIds(s, i, m);
        NumberedUpToLess(s[..i] + s[i + 1..], m);
        AtMost(s[..i] + s[i + 1..], m - 1);
      } else {
        NumberedUpToLess(s, m);
        AtMost(s, m - 1);
      }
    }
  }

  /** Submits keep the numbering, with which the empty ledger starts. */
  lemma {:induction false} SubmitsNumbered(l: Ledger, limits: Limits, ops: seq<Op>)
    requires l.activeCount == |l.records| && Numbered(l.records) && AllSubmits(ops)
    ensures Numbered(EMPTY_LEDGER.records) && Numbered(Submits(l, limits, ops).records)
    decreases |ops|
  {
    if ops != [] {
      var s, next := l.records, Step(l, limits, ops[0]);
      if next != l {
        NotAbove(s, |s|, |s| + 1);
        AcceptedSubmit(l, limits, ops[0]);
        assert NumberedUpTo(next.records, |s| + 1);
      }
      SubmitsNumbered(next, limits, ops[1..]);
    }
  }

  /** Without one of n numbered orders the only number above the count that can be in use is n. */
  lemma {:induction false} CutNumbered(s: seq<OrderRecord>, i: nat)
    requires Numbered(s) && i < |s|
    ensures var cut := s[..i] + s[i + 1..];
            && DistinctIds(cut)
            && forall k :: |cut| < k ==> (InUse(cut, k) <==> k == |s| && s[i].orderId != OrderId(k))
  {
    var cut, n := s[..i] + s[i + 1..], |s|;
    if !InUse(s, n) {
      NumberedUpToLess(s, n);
      AtMost(s, n - 1);
    }
    CutIds(s, i, n);
    forall k | n < k ensures !InUse(cut, k) {
      NotAbove(cut, n, k);
    }
  }

  /** From a numbered ledger a cancel leaves identifiers distinct over every run of submits if and only if it takes the
      order with the greatest number, or the limit on orders never lets that number be handed out again. */
  lemma {:induction false} CancelStaysDistinct(l: Ledger, limits: Limits, orderId: string)
    requires l.activeCount == |l.records| && Numbered(l.records) && FindRecord(l.records, orderId) < |l.records|
    ensures var l', n := CancelOrder(l, orderId), |l.records|;
            && l'.activeCount == |l'.records|
            && (StaysDistinct(l', limits) <==> orderId == OrderId(n) || limits.maxOrders < n)
  {
    CutNumbered(l.records, FindRecord(l.records, orderId));
    StaysDistinctExactly(CancelOrder(l, orderId), limits);
  }

  /** Two submits, a cancel of the first, a third submit: two active orders carry the identifier ORD2. */
  lemma {:induction false} IdsRepeat(limits: Limits)
    requires limits.maxOrders >= 2 && limits.maxNotional >= 0.0
    ensures var l1 := SubmitOrder(EMPTY_LEDGER, limits, "AAPL", 0.0, 1, true);
            var l2 := SubmitOrder(l1, limits, "AAPL", 0.0, 1, true);
            var l3 := CancelOrder(l2, "ORD1");
            var l4 := SubmitOrder(l3, limits, "AAPL", 0.0, 1, true);
            |l4.records| == 2 && l4.records[0].orderId == l4.records[1].orderId == "ORD2"
  {
    var l1 := SubmitOrder(EMPTY_LEDGER, limits, "AAPL", 0.0, 1, true);
    var l2 := SubmitOrder(l1, limits, "AAPL", 0.0, 1, true);
    assert l2.records[0].orderId == "ORD2" && l2.records[1].orderId == "ORD1";
    assert FindRecord(l2.records, "ORD1") == 1;
  }

  // ----- the object -----

  class OrderEntry {
    const limits: Limits
    const activeOrders: LinkedList<OrderRecord>
    var activeCount: int
    var totalNotional: real

    ghost function View(): Ledger
      reads this, activeOrders, activeOrders.spine
    {
      Ledger(activeOrders.Contents(), activeCount, totalNotional)
    }

    constructor (limits: Limits)
      ensures activeOrders.Valid() && View() == EMPTY_LEDGER && this.limits == limits
      ensures fresh(activeOrders)
    {
      this.limits := limits;
      activeOrders := new LinkedList();
      activeCount, totalNotional := 0, 0.0;
    }

    method SubmitNew(symbol: string, price: real, quantity: int, isBuy: bool) returns (status: int)
      requires activeOrders.Valid() && activeCount >= 0
      modifies this, activeOrders
      ensures activeOrders.Valid()
      // Taken exactly while both limits leave room; the record that is then in front holds what was submitted.
      ensures status == 0 <==> old(activeCount) < limits.maxOrders &&
                               old(totalNotional) + Cost(price, quantity) <= limits.maxNotional
      ensures status == 0 ==>
                && activeOrders.Contents() ==
                   [OrderRecord(OrderId(old(activeCount) + 1), symbol, price, quantity, isBuy)] +
                   old(activeOrders.Contents())
                && activeCount == old(activeCount) + 1 && totalNotional == old(totalNotional) + Cost(price, quantity)
      ensures status != 0 ==> View() == old(View())
      ensures View() == SubmitOrder(old(View()), limits, symbol, price, quantity, isBuy)
      ensures status == if Accepts(old(View()), limits, price, quantity) then 0 else -1
      ensures forall c :: c in activeOrders.spine ==> c in old(activeOrders.spine) || fresh(c)
    {
      var newNotional := Cost(price, quantity);
      if activeCount >= limits.maxOrders {
        return -1;
      }
      if totalNotional + newNotional > limits.maxNotional {
        return -1;
      }
      activeOrders.Prepend(OrderRecord(OrderId(activeCount + 1), symbol, price, quantity, isBuy));
      activeCount := activeCount + 1;
      totalNotional := totalNotional + newNotional;
      return 0;
    }

    /** Takes out the newest record with the id; -1 when there is none. */
    method CancelById(orderId: string) returns (status: int)
      requires activeOrders.Valid()
      modifies this, activeOrders, activeOrders.spine
      ensures activeOrders.Valid() && View() == CancelOrder(old(View()), orderId)
      ensures status == if FindRecord(old(View()).records, orderId) < |old(View()).records| then 0 else -1
      ensures forall c :: c in activeOrders.spine ==> c in old(activeOrders.spine)
    {
      status := UnlinkById(orderId);
    }

    /** Unlinks the newest record with the id from the record before it, or from the head. */
    method UnlinkById(orderId: string) returns (status: int)
      requires activeOrders.Valid()
      modifies this, activeOrders, activeOrders.spine
      ensures activeOrders.Valid()
      ensures var s, i := old(activeOrders.Contents()), FindRecord(old(activeOrders.Contents()), orderId);
              if i < |s| then
                && status == 0 && activeOrders.Contents() == s[..i] + s[i + 1..] && activeCount == old(activeCount) - 1
                && totalNotional == old(totalNotional) - Cost(s[i].price, s[i].quantity)
              else status == -1 && View() == old(View())
      ensures forall c :: c in activeOrders.spine ==> c in old(activeOrders.spine)
    {
      var prev: Cell?<OrderRecord>, current := null, activeOrders.head;
      ghost var s, i := activeOrders.Contents(), 0;
      while current != null
        invariant activeOrders.Contents() == s && 0 <= i <= FindRecord(s, orderId)
        invariant current == At(activeOrders.spine, i) && prev == At(activeOrders.spine, i - 1)
        decreases |activeOrders.spine| - i
      {
        var record := current.data;
        assert record == s[i];
        if record.orderId == orderId {
          assert i == FindRecord(s, orderId);
          activeOrders.Unlink(prev, current, i);
          totalNotional := totalNotional - Cost(record.price, record.quantity);
          activeCount := activeCount - 1;
          return 0;
        }
        prev, current, i := current, current.next, i + 1;
      }
      return -1;
    }
  }
}
