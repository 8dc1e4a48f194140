# A verified model of the trading engine

This project models the matching engine of QuantTradingWebSocket and proves what it does, over every
input and every run. `dafny verify dfyconfig.toml` checks all of it.

The engine keeps each side of an order book in a hand-written AVL tree keyed by (price, time stamp). A matching
run takes the right-most bid and the left-most ask, trades the smaller remaining quantity at the ask's price and
deletes what is filled. The model follows it down three levels:

1. **Heap** (`LinkedAvl`, `OrderBook`, `Traders`, `Snapshot`, `Lists` with the list owners below): nodes, orders,
   trees, lists and traders as objects that are updated in place, with the rotations, the contents-copying delete,
   the matching loop and the prev-pointer unlinking of the source.
2. **Values** (`AvlSpec`, `BookModel`, `Money`): the same operations on tree values, branch by branch. Every heap
   method is proved to compute the corresponding function, shape and stored heights included.
3. **Sorted sequences** (`Matching`, `DeadOrders`, `Clearing`): a matcher on two plain lists. The trees are proved to
   refine it, and priority, conservation, completeness, the bound on the number of matches, the effect of orders that
   cannot trade and the clearing volume are proved of it.

Over these stand the theorems about whole runs: of one book (`BookModel`), of a market with traders' balances
(`Money`), of the server's message queue under any interleaving of threads (`RingQueue`), of the session list
(`Sessions`), of the client's trade history (`TradeHistory`) and of its order ledger (`OrderEntry`).

Prices are exact reals, quantities and time stamps unbounded integers, clock readings are parameters. An order is
identified by its object, because order ids can repeat.

## What the code does that its documentation does not say

Each point is modelled as the code has it, with a lemma for the failing case and the exact condition.

- Bids of one price trade latest first, although the repository's README.md (line 26) promises price-time priority
  and `order_compare` puts the earliest first: `compare_nodes` ascends by time for both kinds of tree. A trade of a
  run goes to the first waiting bid under `order_compare` if and only if no earlier bid at its price had anything
  remaining (`BidTimePriority`, `LaterBidFirst`). Asks keep time priority (`AskTimePriority`).
- An order whose key is taken is dropped, although adding it reports success; an order that did not rest before does so
  if and only if its key was free (`RestsExactly`, `DuplicateDropped`). A bid dropped this way keeps its funds reserved, and with that and the price
  improvement the gap in the money is exact for orders placed once with a positive price and quantity and a short id
  (`ExactGap`, `IgnoredBidCosts`).
- A cancel request compares a node's key with that of its own order, so the search only ever goes right: it reaches
  the orders on the right-most path, at most as many as the tree is high (`CancelReaches`, `RightPathFacts`,
  `CancelMisses`).
- An order that is canceled, or that came in with a quantity of 0 or less, cannot trade and never leaves its tree
  (`DeadStaysFrozen`). Where some bid reaches some ask, a match trades nothing if and only if the best bid or the best
  ask is such an order, or the two are of different symbols (`MatchBlockedExactly`, `CanceledBidBlocksLivePair`,
  `EmptyBidBlocksLivePair`), and under such an order it stays so until a better one arrives (`DeadBestBidBlocks`,
  `DeadBestAskBlocks`).
  Such orders change nothing if and only if none of them is ahead of an order that the others alone would trade
  (`DeadAreHarmless`, `CanceledAreHarmless`). With positive prices and quantities, what a canceled
  bid had reserved is never released (`CanceledFundsStay`).
- A bid with a negative cost passes the funds check and adds money to the trader's balance; exactly those do
  (`PlacingMints`, `NegativeQuantityMints`).
- A snapshot that is cut off loses the highest prices, on the bid side the best ones: the best live bid is shown if
  and only if the live bids fit or the last one that fits is at the same price (`HighestShown`, `BestBidMissing`).
  With nothing cut off it adds up to the book's quantities if and only if none of these counts an order below zero
  (`SnapshotAgrees`, `NegativeOrderHidden`).
- A full trade history evicts its newest entry, not its oldest (`KeepsLatest`, `EvictsNewest`).
- Client order ids are made from the number of active orders. They stay distinct over every run of submits if and only
  if no number above the count, up to the limit on orders, is in use (`StaysDistinctExactly`). From the empty ledger
  on submits number the orders 1 to n (`SubmitsNumbered`); from there a cancel leaves ids distinct if and only if it
  takes the order with the greatest number or the limit forbids that number (`CancelStaysDistinct`, `IdsRepeat`).
- A cancel can leave the client's ledger over its notional limit: if and only if it takes out a record so negative that
  the others are over (`CancelKeeps`, `NegativeOrderLiftsLimit`).

## Model

| member | source | states |
|---|---|---|
| `Orders.Order.ReduceQuantity` | src/trading_engine/order.c:164-186 | a quantity is taken off exactly when it is between 0 and what remains; otherwise nothing changes |
| `Orders.CreateOrder` | src/trading_engine/order.c:8-49 | no order exactly when an identifier is too long; otherwise an unmarked order with its whole quantity remaining |
| `AvlSpec.CompareNodes` | src/trading_engine/avl_tree.c:101-112 | for either flag, the sign of the strict order by price, then time |
| `AvlSpec.RotateRightInorder` | src/trading_engine/avl_tree.c:71-84 | a right rotation keeps the in-order sequence |
| `AvlSpec.RotateLeftInorder` | src/trading_engine/avl_tree.c:86-99 | a left rotation keeps the in-order sequence |
| `AvlSpec.FixInorder` | src/trading_engine/avl_tree.c:131-256 | all eight rebalancing cases, of insertion and deletion, keep the in-order sequence |
| `AvlSpec.WithEntryPosition` | src/trading_engine/avl_tree.c:120-129 | a new key has one position, smaller keys before and greater keys after it, and the sequence stays sorted |
| `AvlSpec.InsertInorder` | src/trading_engine/avl_tree.c:114-173 | insertion puts the order at its sorted position; with the key taken the first order stays and the sequence is the same |
| `AvlSpec.InsertTaken` | src/trading_engine/avl_tree.c:120-129 | inserting under a taken key leaves the whole tree as it was, shape and heights included |
| `AvlSpec.InsertBalanced` | src/trading_engine/avl_tree.c:114-173 | insertion keeps stored heights exact and balances within one, and adds at most one level |
| `AvlSpec.FixInsertIsFixDelete` | src/trading_engine/avl_tree.c:134-170 | choosing the rotation by comparing keys makes the choice that the child's balance would make |
| `AvlSpec.WithoutTakesOne` | src/trading_engine/avl_tree.c:180-217 | in a sorted sequence, taking out a key takes out exactly the one entry under it |
| `AvlSpec.DeleteInorder` | src/trading_engine/avl_tree.c:175-257 | deletion takes out exactly the entry under the key, nothing when there is none, and keeps the order |
| `AvlSpec.DeleteAbsent` | src/trading_engine/avl_tree.c:175-187 | deleting an absent key leaves the whole tree as it was |
| `AvlSpec.SuccessorInorder` | src/trading_engine/avl_tree.c:206-216 | the two-child case: replacing the root by its successor removes only the root's entry |
| `AvlSpec.DeleteBalanced` | src/trading_engine/avl_tree.c:175-257 | deletion keeps stored heights exact and balances within one, and removes at most one level |
| `AvlSpec.FibonacciSize` | src/trading_engine/avl_tree.c:114-257 | a balanced tree of height h holds at least Fib(h + 2) - 1 entries |
| `AvlSpec.LogarithmicHeight` | README.md:12 | two to half the height is at most the number of entries plus one |
| `AvlSpec.LeftmostIsFirst` | src/trading_engine/avl_tree.c:31-40 | going left ends at the first entry in order |
| `AvlSpec.RightmostIsLast` | src/trading_engine/avl_tree.c:42-51 | going right ends at the last entry in order |
| `LinkedAvl.RightRotate` | src/trading_engine/avl_tree.c:71-84 | in place, over the same nodes, the linked tree becomes the rotated value |
| `LinkedAvl.LeftRotate` | src/trading_engine/avl_tree.c:86-99 | in place, over the same nodes, the linked tree becomes the rotated value |
| `LinkedAvl.RebalanceInsert` | src/trading_engine/avl_tree.c:131-172 | the four cases of insertion, in place, give the value's rebalancing |
| `LinkedAvl.RebalanceDelete` | src/trading_engine/avl_tree.c:227-256 | the four cases of deletion, in place, give the value's rebalancing |
| `LinkedAvl.FindMinNode` | src/trading_engine/avl_tree.c:31-40 | the loop ends at the node of the least entry |
| `LinkedAvl.FindMaxNode` | src/trading_engine/avl_tree.c:42-51 | the loop ends at the node of the greatest entry |
| `LinkedAvl.InsertNode` | src/trading_engine/avl_tree.c:114-173 | the linked tree becomes the inserted value, keeping its nodes and adding only new ones, in at most height + 1 calls |
| `LinkedAvl.CopyChild` | src/trading_engine/avl_tree.c:198-204 | overwriting a node with its only child leaves it over the child's subtrees with the child's data |
| `LinkedAvl.DeleteNode` | src/trading_engine/avl_tree.c:175-257 | the linked tree becomes the deleted value on a subset of its nodes, in at most height + 1 calls |
| `LinkedAvl.OneNodePerEntry` | src/trading_engine/avl_tree.c:194-204 | a linked tree has exactly as many nodes as entries |
| `LinkedAvl.InorderTraverse` | src/trading_engine/avl_tree.c:349-355 | the traversal hands on the orders in ascending order of their keys |
| `LinkedAvl.AvlTree.Insert` | src/trading_engine/avl_tree.c:296-305 | the tree stays ordered and balanced and gains the order at its sorted position together with one node; otherwise value and nodes stay as they are |
| `LinkedAvl.AvlTree.DeleteOrder` | src/trading_engine/avl_tree.c:307-317 | the tree stays ordered and balanced and loses exactly the entry under the key together with one node; otherwise value and nodes stay as they are |
| `LinkedAvl.AvlTree.FindMin` | src/trading_engine/avl_tree.c:319-332 | the order with the least key, null for an empty tree |
| `LinkedAvl.AvlTree.FindMax` | src/trading_engine/avl_tree.c:334-347 | the order with the greatest key, null for an empty tree |
| `LinkedAvl.AvlTree.IsEmpty` | src/trading_engine/avl_tree.c:27-29 | true exactly when there is no entry |
| `Matching.QuantityConserved` | src/trading_engine/order_book.c:94-120 | each order loses exactly the quantity of the trades that name it, and never goes below zero |
| `Matching.LeavesOnlyFilled` | src/trading_engine/order_book.c:196-205 | an order that left its side has nothing remaining |
| `Matching.ResidualOrders` | src/trading_engine/order_book.c:181-209 | what stays is a front part of the bids and a back part of the asks |
| `Matching.MatchBound` | src/trading_engine/order_book.c:181-209 | a run makes at most as many matches as it removes orders, and at most n - 1 over n orders |
| `Matching.MatchingIsComplete` | src/trading_engine/order_book.c:181-209 | a run ends with an empty side or a best pair that cannot match |
| `Matching.MatchingUncrosses` | src/trading_engine/order_book.c:61-92 | with live orders of one symbol every remaining bid is strictly below every remaining ask |
| `Matching.TradesAreFair` | src/trading_engine/order_book.c:61-120 | every trade is between a bid and an ask of the book and of one symbol, neither canceled nor without remaining quantity, for a positive quantity, at the ask's price within the bid's limit |
| `Matching.AskPriority` | src/trading_engine/order_book.c:181-209 | when an ask trades, every ask with a smaller key could trade and has been filled by earlier trades |
| `Matching.BidPriority` | src/trading_engine/order_book.c:181-209 | when a bid trades, every bid with a greater key could trade and has been filled by earlier trades |
| `Matching.PricesConverge` | src/trading_engine/order_book.c:181-209 | through a run trade prices never fall and the buyers' limits never rise |
| `Matching.OutsidersDoNotTrade` | src/trading_engine/order_book.c:67-87 | an order that is canceled or has nothing remaining, or one on neither side, trades nothing |
| `Matching.VolumeBalances` | src/trading_engine/order_book.c:94-120 | the bids and the asks each lose in total the volume of the log |
| `Matching.AskTimePriority` | src/trading_engine/order.c:215-238 | over a run, every trade goes to the first waiting ask under the declared priority |
| `Matching.LowerBidsWait` | src/trading_engine/order_book.c:181-209 | before a bid trades, no bid with a smaller key has traded anything |
| `Matching.BidTimePriority` | src/trading_engine/order.c:215-238 | over a run, a trade goes to the first waiting bid under the declared priority if and only if no earlier bid at its price had anything remaining |
| `Matching.LaterBidFirst` | src/trading_engine/avl_tree.c:111 | of two equal-price bids the later one gets the whole trade |
| `DeadOrders.DeadStays` | src/trading_engine/order_book.c:196-208 | an order that is canceled or has nothing remaining never leaves its side |
| `DeadOrders.BlockedExactly` | src/trading_engine/order_book.c:61-92 | with some bid that reaches some ask, nothing trades if and only if the best bid or the best ask is canceled or has nothing remaining, or their symbols differ |
| `DeadOrders.CrossedOnlyIfStuck` | src/trading_engine/order_book.c:181-209 | a run leaves a bid that reaches an ask only behind a best pair of that kind |
| `DeadOrders.DeadAreHarmless` | src/trading_engine/order_book.c:181-209 | for any set of orders that are canceled or have nothing remaining, the log is that of matching without them if and only if none of them is ahead of an order that would then trade |
| `DeadOrders.CanceledAreHarmless` | src/trading_engine/order_book.c:181-209 | the log is that of matching without the canceled orders if and only if none of these is ahead of an order that would then trade |
| `Clearing.RunQuantityFor` | src/trading_engine/order_book.c:94-120 | a run takes at most its volume off what each side would trade at a price, and all of it when every trade is within that price |
| `Clearing.NoAuctionTradesMore` | src/trading_engine/order_book.c:181-209 | with live orders of one symbol no auction at a single price trades more than a run |
| `Clearing.VolumeIsClearing` | src/trading_engine/order_book.c:181-209 | with live orders of one symbol the volume of a run is the greatest that an auction at a single price would trade |
| `BookModel.DeleteBest` | src/trading_engine/order_book.c:197-205 | deleting the best order's key drops the last bid or the first ask |
| `BookModel.TreeRoundRefines` | src/trading_engine/order_book.c:181-209 | one turn of the loop on the trees is one round on the sequences and keeps the book well formed |
| `BookModel.MatchTreesRefines` | src/trading_engine/order_book.c:142-212 | matching on the trees gives the trades, residual orders and quantities of the matcher on sequences |
| `BookModel.AddWellFormed` | src/trading_engine/order_book.c:122-140 | adding any order keeps both trees ordered and balanced and every order filed under its own key on its side |
| `BookModel.CancelCharacterised` | src/trading_engine/order_book.c:214-241 | a cancel finds an order if and only if the id is on the right-most path, and then the first such order |
| `BookModel.RightPathFacts` | src/trading_engine/order_book.c:231-236 | the path ends at the greatest key and is no longer than the tree is high |
| `BookModel.CancelReaches` | src/trading_engine/order_book.c:214-241 | an order with an id of its own is found if and only if it is on the path; the greatest always is |
| `BookModel.CancelEffect` | src/trading_engine/order_book.c:214-241 | on either side a cancel marks exactly the first order with the id on the right-most path, nothing without one, and leaves trees, quantities and log alone |
| `BookModel.CanceledAsksAreMarked` | src/trading_engine/order_book.c:226 | of two asks a cancel by either id marks that one |
| `BookModel.CancelMisses` | src/trading_engine/order_book.c:231-236 | of two bids added in falling order the lower one rests and cannot be canceled |
| `BookModel.AddTouches` | src/trading_engine/order_book.c:122-140 | an add leaves the other side, all other orders and the log alone; a new order has its whole quantity and no mark |
| `BookModel.AddPlaces` | src/trading_engine/order_book.c:122-140 | on its side the order takes exactly the position of its key, or none when the key is taken |
| `BookModel.RestsExactly` | src/trading_engine/avl_tree.c:120-129 | after an add the order rests if and only if it rested before or its key was free on its side |
| `BookModel.DuplicateDropped` | src/trading_engine/avl_tree.c:125-129 | of two bids under one key only the first rests, the second is noted with its whole quantity and nowhere |
| `BookModel.StepWellFormed` | src/trading_engine/order_book.c:122-241 | every operation keeps key agreement, side, order and balance |
| `BookModel.Run` | src/trading_engine/order_book.c:122-241 | every run keeps key agreement, side, order and balance |
| `BookModel.MeetingPairTrades` | src/trading_engine/order_book.c:181-209 | a bid at 2 and an ask at 1 for one unit, then a match: one trade at 1, and both orders have left their trees |
| `BookModel.RunLedger` | src/trading_engine/order_book.c:94-120 | over every run each order's remaining quantity is its quantity less its trades, within bounds, and every trade is fair |
| `BookModel.DeadStaysFrozen` | src/trading_engine/order_book.c:67-87 | once canceled or without remaining quantity, an order keeps that quantity and its place in its tree and is in no later trade, over every run |
| `BookModel.DeadBestBidBlocks` | src/trading_engine/order_book.c:67-87 | under a best bid that is canceled or has nothing remaining no run trades until a bid with a greater key is added |
| `BookModel.DeadBestAskBlocks` | src/trading_engine/order_book.c:67-87 | over a best ask that is canceled or has nothing remaining no run trades until an ask with a smaller key is added |
| `BookModel.MatchBlockedExactly` | src/trading_engine/order_book.c:142-212 | in any book in which some bid reaches some ask, a match trades nothing if and only if the best bid or the best ask is canceled or has nothing remaining, or their symbols differ |
| `BookModel.CanceledBidBlocksLivePair` | src/trading_engine/order_book.c:206-208 | a canceled bid above a live bid and ask that could trade: the run ends with an empty log |
| `BookModel.EmptyBidBlocksLivePair` | src/trading_engine/order_book.c:84-87 | a bid for 0 above a live bid and ask that could trade: the run ends with an empty log and nothing canceled |
| `BookModel.RunCrossedOnlyIfStuck` | src/trading_engine/order_book.c:142-212 | after any run that ends with a match, a bid reaches an ask only behind a best pair that cannot trade |
| `BookModel.RunUncrosses` | src/trading_engine/order_book.c:142-212 | after any run of new orders of one symbol and positive quantity and of matches, ending with a match, every bid is below every ask |
| `BookModel.RunTradesClearingVolume` | src/trading_engine/order_book.c:142-212 | the last match of such a run trades the greatest volume that an auction at a single price would |
| `OrderBook.OrderBook.AddOrder` | src/trading_engine/order_book.c:122-140 | the book's value becomes that of the add, with status 0 even when the order is ignored, -1 for none |
| `OrderBook.OrderBook.ProcessMatch` | src/trading_engine/order_book.c:94-120 | both orders lose the smaller remaining quantity, neither when it is negative, and the trade is logged at the seller's price |
| `OrderBook.OrderBook.BestPair` | src/trading_engine/order_book.c:183-191 | whether the greatest bid and the least ask can trade, and who they are |
| `OrderBook.OrderBook.MatchBest` | src/trading_engine/order_book.c:181-209 | one turn of the loop computes one turn on the value |
| `OrderBook.OrderBook.MatchOrders` | src/trading_engine/order_book.c:142-212 | prelude and loop together compute the matching of the value, trees, quantities and log included |
| `OrderBook.OrderBook.FindToCancel` | src/trading_engine/order_book.c:220-237 | the walk terminates and finds the order that the value's search finds |
| `OrderBook.OrderBook.CancelOrder` | src/trading_engine/order_book.c:214-241 | status -1 exactly when no order on the side's right-most path has the id; otherwise the first that has it is marked and every other mark is unchanged |
| `OrderBook.OrderBook.TraverseOrders` | src/trading_engine/order_book.c:243-263 | the orders of one side in ascending order |
| `OrderBook.OrderBook.GetQuantityAtPrice` | src/trading_engine/order_book.c:265-300 | the sum of the remaining quantities at the price over the side's uncanceled orders |
| `Money.Reserve` | src/trading_engine/trader.c:127-162 | an order is taken if and only if it is the trader's own and a bid costs at most the balance, which then drops by that cost and never below zero |
| `Money.Credited` | src/trading_engine/trader.c:164-185 | an update never leaves a negative balance |
| `Money.AddReserved` | src/trading_engine/trader.c:139-161 | an accepted bid adds its limit price times its remaining quantity to the reserved funds, any other order nothing |
| `Money.MatchReserved` | src/trading_engine/order_book.c:94-120 | matching frees exactly limit price times quantity of each trade |
| `Money.ExecuteAllTotals` | src/trading_engine/trade.c:96-119 | executing trades adds exactly the value of the recordable ones to the balances |
| `Money.ValueSplits` | src/trading_engine/trade.c:108-115 | what buyers reserved for trades is what sellers get plus price improvement plus uncredited trades |
| `Money.PlaceKeeps` | src/trading_engine/trader.c:127-162 | placing an order keeps the market sound and its whole money unchanged |
| `Money.SettleKeeps` | src/trading_engine/trade.c:96-119 | a matching run with all its trades executed keeps the market sound and its whole money unchanged |
| `Money.ExecuteAllPays` | src/trading_engine/trade.c:96-119 | executing trades adds to each trader's balance what its own asks received in recordable trades, and nothing else |
| `Money.StepBalance` | src/trading_engine/trader.c:127-162 | one operation takes from a trader's balance the cost of its own taken bid and adds what its asks received |
| `Money.BalanceExactly` | src/trading_engine/trader.c:127-185 | over every run a trader's balance is its start, less the cost of its taken bids, plus what its asks received |
| `Money.MarketRunsBook` | src/trading_engine/trader.c:127-162 | the book of a market goes through the run of the taken placements, the matches and the cancels |
| `Money.MarketRun` | src/trading_engine/trader.c:127-185 | over every run no balance goes negative and every order's trader stays known |
| `Money.MoneyConserved` | src/trading_engine/trader.c:127-185 | over every run balances, funds reserved for resting bids, price improvement, uncredited trades and stranded reservations add up to the same |
| `Money.RunWithinWealth` | src/trading_engine/trader.c:127-185 | with positive prices and quantities balances plus reserved funds never exceed the whole money at the start of a run |
| `Money.MarketIsSolvent` | src/trading_engine/trader.c:127-185 | from an empty book they never exceed what the traders brought in |
| `Money.CanceledFundsStay` | src/trading_engine/order_book.c:214-241 | what a bid had reserved when it was canceled stays reserved, and out of every balance, over every run |
| `Money.ExactGap` | src/trading_engine/trade.c:108-115 | with each order placed once, of positive price and quantity and with a short id, what is missing from balances and reserved funds is exactly price improvement plus the cost of bids ignored for a taken key |
| `Money.IgnoredBidCosts` | src/trading_engine/trader.c:139-161 | a trader with 2 bids 1 twice under one key: 1 stays reserved and 1 is gone |
| `Money.PlacingMints` | src/trading_engine/trader.c:140-152 | placing an order raises the total of the balances if and only if it is the trader's own bid with a negative cost |
| `Money.NegativeQuantityMints` | src/trading_engine/trader.c:140-152 | a bid for -1 unit gives a penniless trader its price |
| `Traders.Trader.PlaceOrder` | src/trading_engine/trader.c:127-162 | status 0 if and only if the order is the trader's own and a bid costs at most the balance; then a bid's cost is taken off, an ask's is not, and the order is added to the book; a refused order changes nothing |
| `Traders.Trader.UpdateBalance` | src/trading_engine/trader.c:164-185 | the amount is added unless the balance would go negative |
| `Traders.CreateTrader` | src/trading_engine/trader.c:10-45 | no trader exactly for a negative balance or an over-long name or id |
| `Traders.RecordableTrades` | src/trading_engine/trade.c:8-54 | a record can be made exactly of a positive price and quantity and ids below 64 characters, holds those, and these are the trades that the market executes |
| `Traders.ExecuteRecord` | src/trading_engine/trade.c:96-119 | the seller is credited with price times quantity; the buyer's balance does not change |
| `Snapshot.BookSnapshot.CollectOrder` | src/server/server_handlers.c:46-65 | a live order is appended to its side while there is room; nothing else changes |
| `Snapshot.BuildSnapshot` | src/server/server_handlers.c:301-322 | each side is the in-order live orders, up to 200; the best live bid is shown if and only if they fit or the 200th is at its price |
| `Snapshot.SnapshotAgrees` | src/trading_engine/order_book.c:271-300 | with nothing cut off, the quantities shown at a price add up to the book's quantity at that price if and only if no uncanceled order there is below zero |
| `Snapshot.NegativeOrderHidden` | src/server/server_handlers.c:46-65 | an order for -1 is not shown, but the book's quantity at its price is -1 |
| `Snapshot.SnapshotAscends` | src/server/server_handlers.c:46-65 | levels ascend by price |
| `Snapshot.HighestShown` | src/server/server_handlers.c:46-65 | cut off after n levels, the highest live price is shown if and only if all levels fit or the n-th is already at that price |
| `Snapshot.HighestIsBest` | src/server/server_handlers.c:46-65 | no live order of the side is above the last level |
| `Snapshot.BestBidMissing` | src/server/server_handlers.c:301-322 | of 201 live bids at 1 to 201 the snapshot does not show the best |
| `Lists.LinkedList.Prepend` | src/server/session_manager.c:93-94 | a new cell in front, the rest as it was |
| `Lists.LinkedList.Unlink` | src/server/session_manager.c:111-115 | unlinking a cell through its predecessor, or at the head, takes out that cell alone and keeps the chain |
| `RingQueue.EnqueueIsAppend` | src/server/server_handlers.c:478-493 | an enqueue appends at the back, through wrap-around, and is refused exactly with size - 1 items waiting |
| `RingQueue.DequeueIsTail` | src/server/server_handlers.c:80-82 | a dequeue takes the oldest item, through wrap-around |
| `RingQueue.StepFifo` | src/server/server_handlers.c:68-86 | each locked section by any thread keeps deliveries plus waiting items equal to the accepted items, in order |
| `RingQueue.StepEffect` | src/server/server_handlers.c:68-86 | a send is accepted if and only if fewer than size - 1 items wait; a worker of a running server gets the oldest waiting item under its own number, and nothing otherwise |
| `RingQueue.WorkersDrain` | src/server/server_handlers.c:68-86 | on a running server as many turns of workers as items wait deliver every accepted item |
| `RingQueue.QueueIsFifo` | src/server/server_handlers.c:472-499 | over any interleaving of senders and workers nothing is lost, repeated or reordered, and at most size - 1 items wait |
| `RingQueue.MessageQueue.ProcessMessage` | src/server/server_handlers.c:472-499 | the message joins the back of the queue; -1 and no change exactly with size - 1 items waiting |
| `RingQueue.MessageQueue.DequeueMessage` | src/server/server_handlers.c:68-86 | a worker waits exactly on an empty queue of a running server, gets nothing when stopped, else the oldest item |
| `Sessions.StepSound` | src/server/session_manager.c:65-275 | every operation keeps the limit, one session per client and no symbol twice |
| `Sessions.Run` | src/server/session_manager.c:65-275 | so does every run |
| `Sessions.MembershipEffect` | src/server/session_manager.c:65-133 | adding opens an empty session for a new client while there is room, removing closes that client's session, no other session changes |
| `Sessions.LiveFacts` | src/server/session_manager.c:239-275 | cleanup keeps exactly the sessions for which 1000 times the seconds since the last ping are at most the time-out |
| `Sessions.LiveConcat` | src/server/session_manager.c:249-272 | cleanup keeps the order of the sessions |
| `Sessions.SubscriptionEffect` | src/server/session_manager.c:135-193 | subscribing and unsubscribing change only the client and symbol named, the former while there is room |
| `Sessions.SessionsKeep` | src/server/session_manager.c:135-289 | they change no ping time and no other session; a ping sets every ping time and nothing else |
| `Sessions.SubscribersAreSubscribed` | src/server/session_manager.c:195-237 | a client is listed for a symbol if and only if it is subscribed |
| `Sessions.SubscribersConcat` | src/server/session_manager.c:217-237 | clients are listed in the order of their sessions |
| `Sessions.RemoveByShift` | src/server/session_manager.c:180-184 | moving the later symbols down takes out exactly the one at the position |
| `Sessions.SessionManager.Find` | src/server/session_manager.c:54-63 | the walk ends at the first session of the client, null when there is none |
| `Sessions.SessionManager.Add` | src/server/session_manager.c:65-99 | the list becomes that of the step, a new session in front, the count its length |
| `Sessions.SessionManager.Remove` | src/server/session_manager.c:101-133 | the linked list becomes that of the step, over the cells it had, the count its length |
| `Sessions.SessionManager.UnlinkFirst` | src/server/session_manager.c:106-131 | the walk with its previous pointer unlinks exactly the first session of the client; -1 when there is none |
| `Sessions.SessionManager.SubscribeSymbol` | src/server/session_manager.c:135-164 | -1 exactly without a session or with a full one; success leaves the client subscribed |
| `Sessions.SessionManager.UnsubscribeSymbol` | src/server/session_manager.c:166-193 | 0 exactly when the client was subscribed; it no longer is |
| `Sessions.SessionManager.CleanupSessions` | src/server/session_manager.c:239-275 | the linked list becomes that of the step, the count its length |
| `Sessions.SessionManager.UnlinkTimedOut` | src/server/session_manager.c:246-272 | one pass that unlinks as it goes leaves exactly the live sessions, in their order and over the cells the list had |
| `Sessions.SessionManager.PingClients` | src/server/session_manager.c:277-289 | the linked list becomes that of the step |
| `Sessions.SessionManager.SetPingTimes` | src/server/session_manager.c:282-286 | the walk sets every session's ping time and nothing else |
| `Sessions.SessionManager.GetSubscribers` | src/server/session_manager.c:217-237 | the subscribers in list order, as many as fit |
| `TradeHistory.HistoryContents` | src/client/trade_history.c:52-81 | after any n > m trades the list is the newest trade followed by the first m - 1 in reverse order |
| `TradeHistory.KeepsLatest` | src/client/trade_history.c:57-62 | for distinct trades the list is the latest m if and only if they fit or m is 1 |
| `TradeHistory.EvictsNewest` | src/client/trade_history.c:57-62 | three trades into a history of two: the second is gone |
| `TradeHistory.VwapOfOne` | src/client/trade_history.c:151-154 | one trade of positive quantity has its price as average and counts in its own symbol only |
| `TradeHistory.VwapWeighs` | src/client/trade_history.c:141-160 | over two histories with volume, volumes add and so do the products of average and volume |
| `TradeHistory.VwapIgnoresOthers` | src/client/trade_history.c:151 | trades of other symbols do not change the average, which is 0 without any |
| `TradeHistory.VwapExample` | src/client/trade_history.c:152-159 | 30 traded at 1 and 10 at 5 average 2 |
| `TradeHistory.VwapBetweenPrices` | src/client/trade_history.c:141-160 | with positive quantities the volume-weighted price is between the least and the greatest kept price |
| `TradeHistory.History.Add` | src/client/trade_history.c:52-81 | the linked list becomes that of the add, the count its length, and never grows past the limit |
| `TradeHistory.History.GetVwap` | src/client/trade_history.c:141-160 | the loop computes value over volume of the symbol, 0 without volume |
| `OrderEntry.FindRecord` | src/client/order_entry.c:115-136 | the first record with the id |
| `OrderEntry.StepEffect` | src/client/order_entry.c:60-141 | a submit is taken if and only if both limits leave room, and puts a record of id, symbol, price, quantity and side in front; a cancel takes out the newest record with the id; both adjust the counters by it |
| `OrderEntry.CancelKeeps` | src/client/order_entry.c:107-141 | unlinking the first record with the id keeps count and total exact, and exceeds a limit if and only if the record's notional is below total less limit |
| `OrderEntry.Run` | src/client/order_entry.c:60-141 | over any submits and cancels count and total stay exact |
| `OrderEntry.RunWithin` | src/client/order_entry.c:60-141 | over any submits of non-negative notional and cancels the limits hold |
| `OrderEntry.NegativeOrderLiftsLimit` | src/client/order_entry.c:67-80 | with a limit of 0, orders of notional -1 and 1 and a cancel of the first leave the ledger at 1 |
| `OrderEntry.OrderIdInjective` | src/client/order_entry.c:89 | ids are equal exactly when their numbers are |
| `OrderEntry.SubmitsDistinct` | src/client/order_entry.c:89 | a run of submits keeps ids distinct if and only if none of the numbers count + 1 to count + accepted was in use |
| `OrderEntry.StaysDistinctExactly` | src/client/order_entry.c:60-105 | ids stay distinct over every run of submits if and only if no number above the count, up to the limit on orders, is in use |
| `OrderEntry.SubmitsNumbered` | src/client/order_entry.c:89 | from the empty ledger on, submits keep n active orders numbered 1 to n |
| `OrderEntry.CancelStaysDistinct` | src/client/order_entry.c:107-141 | from there a cancel leaves ids distinct over every run of submits if and only if it takes the order with the greatest number or the limit forbids that number |
| `OrderEntry.IdsRepeat` | src/client/order_entry.c:89 | two submits, a cancel and a submit give two active orders one id |
| `OrderEntry.OrderEntry.SubmitNew` | src/client/order_entry.c:60-105 | 0 if and only if both limits leave room; then the record in front holds what was submitted and the counters grow by it, else nothing changes |
| `OrderEntry.OrderEntry.CancelById` | src/client/order_entry.c:107-141 | the ledger becomes that of the cancel; -1 exactly when no record has the id |
| `OrderEntry.OrderEntry.UnlinkById` | src/client/order_entry.c:115-136 | the walk with its previous pointer takes out exactly the first record with the id, its count and its notional |

## Left out

- WebSocket transport, JSON, logging, configuration, the command line and the market monitor: input and output.
- Trade broadcasting: a ghost log of trades stands for it.
- Changing price or quantity of an order after creation (`order_set_price`, `order_set_quantity`): nothing calls them, and on a resting order they would break the agreement of node and order keys.
- Executing trades: `process_match` does not call `trade_execute` and no other code does; the market of `Money` composes them, executing every logged trade after each matching run.
- Several workers inside one order book: `handle_place_order` changes books under a read lock, so book operations are modelled one at a time.
- Waking and stopping of workers: only the safety of the queue is claimed.
- Allocation failure, freeing and null arguments other than a null order: a node that is freed is one that the tree no longer holds.
- Rounding of prices and overflow of sums: arithmetic is exact.
- A session's symbol array is a sequence: the shifting loop over it is modelled, its strings' allocation is not.
- Traversal with a callback: the traversal yields the orders in sequence and the callback runs over that sequence.
- The table of books by symbol and the handlers that look books up: they only select a book.
- TradeHistory.History.Add: requires a limit of at least one while the list is empty, because otherwise the source reads through a null head.
- RingQueue.MessageQueue.ProcessMessage: requires a queue size of at least one, because the source divides by it.
- Sessions.SessionManager.Add: the source tests the limit before it takes the lock; operations are modelled one at a time.
