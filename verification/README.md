# Verified model of the exchange core

This project models the order-matching core of the exchange and proves what it keeps: one match, whole
runs of the book, the balance table and the order rows, the cache and the optimistic protocol on it,
the per-pair lock, the matching script, and the text and fixed-point formats in between.
`dafny verify dfyconfig.toml` checks all of it.

Prices and quantities are integers in the smallest unit (10^-8), identifiers are naturals. The parts
that the program updates in place (the book slice, the balance table, the stores, the cache, the lock
key) are methods on arrays and classes, each proved equal to a function of the old state; the theorems
are about those functions.

## The main results

- **One match.** Under every type, time in force and self-trade-prevention (STP) mode, the loop of the
  engine equals a recursive walk (`MatchOrder`); every slot of the book ends up as price-time priority
  says (`PriorityFill`); quantity and final status follow from the inputs (`FillAndStatus`); no other
  way to take the quantity is cheaper (`GreedyOptimality`). Splitting an order, CancelMaker, CancelTaker
  and CancelBoth each amount to a simpler match.
- **Fill-or-kill.** The check counts the user's own orders (`TurnedAwayExactly`), the walk may not use them. So all-or-nothing
  holds exactly under the condition of `FillOrKillExactly`; `FillOrKillFailure` is an input outside it.
- **The book over whole runs** stays sorted, positive and uncrossed (`NeverCrossed`).
- **The ledger.** When any batching, in any order, of persisted matches gives the table that settling
  trade by trade gives: in general exactly if in every row both sequences of clamped debits leave the
  same (`BatchesExactly`); if no amount is negative, exactly if no row in debt is touched that is neither
  debited nor released (`BatchIndependence`). A row in debt, and a trade of negative cost, can each break it
  (`DebtWrittenOff`, `NegativeCostDiffers`).
- **Users.** Over every run each user has of each asset what it started with, plus what persisted trades
  brought it as buyer or seller, less what they took (`UserAccount`). An order is accepted exactly if
  its user has the row and can still spend what it asks, whatever is locked (`AcceptedExactly`).
- **Solvency over whole runs** of placing, persisting in any order and cancelling: what is locked is
  exactly the obligations of open and stopped orders, plus what pending matches will take, plus past
  price improvement less what market buys paid out of it; totals per asset never change and no clamp
  fires (`WholeRunSolvency`, and `WholeRunExisting` for the settlement that only updates rows).
- **Market buys** lock nothing. Persisting a match keeps every total if and only if all that it takes is
  locked (`JobExactly`), and so for all pending matches together, in any order (`DrainExactly`). After a
  market buy that is: if and only if its buyer has locked what pending matches and the buy's cost on the
  book take (`MarketBuyExactly`). That every open order stays covered too takes as much more as open and
  stopped orders need (`PlaceExactly`).
- **Rows.** Over every run of harmless steps the row of an order that nobody cancelled says what the order
  traded, and is Filled exactly if that is its whole quantity (`FilledExactly`).
- **Cancellations** take out exactly the user's own New and PartiallyFilled orders, book and row
  (`CancelsOpenRow`, `CancelClears`, `CancelsNothingElse`, `CancelAllClears`). A cancellation is exact if and only if nothing of value that the order traded is
  unpersisted and its refund goes to the asset it locked, or is worth nothing (`AgreesExactly`);
  otherwise a unit can be minted (`CancelRaceMints`). `GuardedRuns` has the whole-run theorem under
  guards of that kind, which a caller can check, and the recovery invariant with it. The gateway's
  settlement only updates rows: it keeps all this exactly if every row that it credits exists
  (`PersistExistingExactly`).
- **Cold start.** Workers persist in parallel, so matches are persisted out of order. Persisting one
  early is harmless exactly if it filled no order whose own match is still pending before it
  (`PersistExactly`); otherwise a filled order can come back (`OutOfOrderResurrects`). In any run of
  harmless steps, rebuilding the book from the rows, or the sets and hashes (`ColdStartOfCache`), gives
  the live book if and only if STP stopped no resting order: the rows of those stay open (`ColdStart`,
  and `StoppedComesBack` is such a run).
- **The cache.** The price-bounded load is enough (`BoundedLoad`). In any interleaving of the optimistic
  protocol, a commit is against exactly the ids its worker read (`CommitsAgainstWhatItRead`) and no
  order is removed twice (`NoOrderRemovedTwice`); if every partial fill that is written ahead is
  committed by the next swap that succeeds, the interleaving equals the serial run in commit order
  (`Serialisable`). A partial fill whose swap conflicts stays behind (`ConflictKeepsPartialFill`).
  Without the version key nothing ever commits (`AbsentVersionBlocks`).
- **The matching script** makes the engine's trades if and only if no order that the engine acts on
  among the first fifty has an STP mode that a taker without one inherits, and those fifty fill the
  taker as far as the whole side would (`ScriptTradesExactly`; of fifty-one units it trades fifty,
  `FiftyOfFiftyOne`). It refines the engine on the simple
  books altogether (`ScriptRefinesSubmit`) if it acts on at most fifty orders, which is enough but not
  always needed, if no mode is inherited, and if no market order is marked good-till-cancelled
  (`MarketRests`). It forgets the remaining quantity of a taker that STP stops short, and the gateway
  then never releases that taker's lock (`ReleaseByScript`).
- **The lock.** Mutual exclusion, and no order ever fills beyond its quantity, crashes included
  (`MutualExclusion`, `NeverOverfilled`), if no section outlives its lock and no dropped guard releases
  while its worker is inside again; without either, a second worker enters (`OverrunAdmits`,
  `LateReleaseAdmits`, and `LateReleaseRun` is such a run).
- **Formats.** The snapshot and the order hash each come back exactly under a stated condition
  (`WireRoundTrip`, `HashRoundTrip`).

## Where code and documentation disagree

The model follows the code.

- The engine's comment says that the slice is not mutated (`crates/shared/src/engine.rs:33-35`); it is,
  and both reports are proved to agree (`ReportsAgree`).
- The lock's comments promise a value `worker:fence` and a release that checks the fence
  (`crates/shared/src/lock.rs:5-7`, `crates/shared/src/lock.rs:116-120`); the value is the worker's id
  and the release ignores the fence.
- The engine never rests a market order; the script rests one that is marked good-till-cancelled.
- A cancelled buy is refunded in USDT whatever its pair (`OtherQuoteStrands`).

## Model

| member | source | states |
|---|---|---|
| Engine.MatchOrder | crates/shared/src/engine.rs:36-186 | The loop with its in-place changes computes exactly the recursive match: same result, same slice afterwards |
| Engine.WalkBook | crates/shared/src/engine.rs:70-162 | The walk over the slice: fills, the four STP modes and the early stops, slice and records both |
| MatchLaws.Conservation | crates/shared/src/engine.rs:109-178 | Quantity traded = drop of the incoming order = total drop of the resting orders, and nothing but remaining and status changes |
| MatchLaws.TradesAreFills | crates/shared/src/engine.rs:109-154 | The trades are exactly the losses of the resting orders, one each, in slice order, at the resting price, within the taker's limit and never against a protected own order |
| MatchLaws.FillAndStatus | crates/shared/src/engine.rs:109-178 | Filled quantity and final status of a new order in closed form, for every type, time in force and STP mode |
| MatchLaws.FillOrKillExactly | crates/shared/src/engine.rs:43-58 | A fill-or-kill order is all or nothing if and only if it is turned away, or enough is reachable, or CancelTaker stops it before its first fill |
| MatchLaws.TurnedAwayExactly | crates/shared/src/engine.rs:43-58 | A fill-or-kill order is turned away without a trace if and only if less than its quantity rests within its price, its user's own orders included |
| MatchLaws.FillOrKill | crates/shared/src/engine.rs:43-78 | Without an own order in reach fill-or-kill is all or nothing, and fills exactly if enough is available |
| MatchLaws.FillOrKillFailure | crates/shared/src/engine.rs:43-106 | An input on which fill-or-kill leaves a partial fill |
| PriorityLaws.PriorityFill | crates/shared/src/engine.rs:70-162 | Every slot of the book afterwards, in closed form: earlier slots are served first, completely, under every STP mode |
| PriorityLaws.GreedyOptimality | crates/shared/src/engine.rs:70-162 | Without STP the match fills min(remaining, available), and no other allocation of that quantity costs a buyer less or pays a seller more |
| PriorityLaws.UpdatesArePrefix | crates/shared/src/engine.rs:90-154 | The reported updates are exactly the changed prefix of the slice |
| PriorityLaws.PrefixIsEnough | crates/shared/src/engine.rs:76-78 | Orders beyond the price bound change neither the result nor themselves |
| EquivalenceLaws.SplitOrder | crates/shared/src/engine.rs:70-162 | Matching q1 and then q2 on what is left leaves the same book, fills the same and moves the same money as matching q1 + q2 |
| EquivalenceLaws.CancelMakerEquivalence | crates/shared/src/engine.rs:81-106 | CancelMaker matches as on the book without the taker's own orders, and cancels exactly those reached while quantity remained |
| EquivalenceLaws.CutAtOwnEquivalence | crates/shared/src/engine.rs:84-102 | CancelTaker and CancelBoth match as on the book cut at the first own order in reach; only CancelBoth changes that order |
| SortedBook.ReportsAgree | crates/shared/src/cache.rs:1037-1065 | Applying the reported updates to the stored side gives exactly the open orders of the slice mutated in place |
| SortedBook.SideInOrder | crates/shared/src/cache.rs:362-372 | On a valid side asks go upwards and bids downwards by price, and orders at one price by id |
| Books.SubmitKeepsValid | crates/shared/src/cache.rs:1037-1081 | Matching, storing the updates and resting the remainder keeps both sides sorted, positive, disjoint and uncrossed |
| Books.RunKeepsValid | crates/shared/src/cache.rs:362-407 | Every run of submissions and withdrawals keeps the books valid |
| Books.NeverCrossed | crates/shared/src/engine.rs:70-178 | From an empty book, after any run under every STP mode, each bid is strictly below each ask |
| Ledger.Balances.LockBalance | crates/api/src/routes.rs:569-586 | Locks price times quantity, or the quantity, exactly if that much is available; otherwise nothing changes |
| Ledger.Balances.SettleTradeBalances | crates/api/src/routes.rs:818-846 | The four balance statements of one trade, with the clamp |
| Ledger.Balances.ReleaseRemainingLocked | crates/api/src/routes.rs:602-626 | Releases what a closed order has left |
| Ledger.Balances.AggregateDeltas | crates/api/src/routes.rs:651-700 | The accumulated map has exactly the touched rows with exactly the summed deltas |
| Ledger.Balances.PersistTrades | crates/api/src/routes.rs:651-760 | One statement per touched row, in any order of rows, gives the row shifted by the sums |
| Ledger.Balances.ProcessPersistJob | crates/api/src/routes.rs:60-106 | One job: trades aggregated, then the release |
| Ledger.Balances.ProcessPersistBatch | crates/api/src/routes.rs:146-260 | A batch: all trades aggregated, then all releases |
| UserAccounts.TradeByUser | crates/api/src/routes.rs:818-846 | One settled trade over its fields: the buyer's base and the seller's quote become available, both locks shrink, with the clamp; missing rows are inserted; no other row changes |
| UserAccounts.TradesByUser | crates/api/src/routes.rs:651-760 | The aggregated statements, with or without inserts, for any user and asset: what it received, and gave, summed over the trades' fields |
| UserAccounts.UserAccount | crates/shared/src/integration_tests.rs:1686-1698 | Over every allowed run, available plus locked of each user and asset = start + received - given in the persisted trades |
| UserAccounts.LockExactly | crates/api/src/routes.rs:568-586 | An order is accepted if and only if its row has price times quantity, or the quantity, available, whatever is locked; then exactly that moves |
| UserAccounts.AcceptedExactly | crates/gateway/src/worker.rs:351-404 | After any allowed run a match is queued if and only if the row exists and start + trades - needs of open orders and pending matches - past price improvement covers what the order asks; otherwise nothing changes |
| LedgerLaws.AggregationExactly | crates/api/src/routes.rs:680-734 | On any table with the rows, whatever the signs: aggregated deltas equal settling trade by trade if and only if clamping once is enough in every touched row |
| LedgerLaws.AggregationIsExact | crates/api/src/routes.rs:680-734 | If no trade moves anything backwards, that is: if and only if no touched row in debt goes undebited |
| LedgerLaws.DebtWrittenOff | crates/api/src/routes.rs:702-734 | An input: a seller whose locked quote is negative has the debt written off by the aggregated statement only |
| LedgerLaws.NegativeCostDiffers | crates/api/src/routes.rs:680-734 | An input without debts: two trades of cost 100 and -100 settle differently aggregated |
| LedgerLaws.BatchesExactly | crates/api/src/routes.rs:84-260 | Any partition of the jobs into batches and any permutation gives the table of settling trade by trade and releasing job by job if and only if both sequences of clamped debits leave the same in every row; only the rows are assumed |
| LedgerLaws.BatchIndependence | crates/api/src/routes.rs:84-260 | Without negative amounts, that is: if and only if no touched row in debt is neither debited nor released |
| LedgerLaws.PersistJobExact | crates/api/src/routes.rs:651-760 | When the locked units are there, persisting clamps nowhere and leaves every asset's total, missing rows included: they are inserted |
| Ledger.Balances.PersistExisting | crates/gateway/src/worker.rs:528-646 | The gateway's settlement: rows that exist are updated, then the release |
| LedgerLaws.ExistingExactly | crates/gateway/src/worker.rs:562-596 | Updating existing rows only keeps every total if and only if every row credited with a nonzero amount exists; then it leaves in every row what inserting leaves |
| Exchange.Stores.ProcessOrder | crates/gateway/src/worker.rs:318-404 | Lock, match, store the book changes and queue the match; rejected exactly if the lock fails |
| Exchange.Stores.UpdateRows | crates/gateway/src/worker.rs:503-627 | The row statements of one persisted match |
| Exchange.Stores.PersistOrderExisting | crates/gateway/src/worker.rs:487-653 | Ledger and rows of one pending match: balances of existing rows, the row statements, and the match is pending no more |
| Exchange.Stores.PersistOrder | crates/api/src/routes.rs:60-106 | The API's path: missing balance rows inserted, and the incoming row rewritten even if it rests |
| RecoveryRuns.ApiPersists | crates/api/src/routes.rs:382-393 | In every reachable state that rewrite changes nothing: the API's path and the gateway's row statements leave the same |
| Exchange.Stores.ProcessCancellation | crates/api/src/worker.rs:706-774 | Cancels by the order's row: book, row and unclamped refund, or nothing |
| Exchange.Stores.ProcessCancelAll | crates/api/src/worker.rs:797-819 | Cancels the listed orders one after the other |
| CancelRows.CancelsOpenRow | crates/api/src/worker.rs:716-768 | A New or PartiallyFilled row of the user's becomes Cancelled with nothing remaining, its amount is refunded, and no other row or resting order changes |
| CancelRows.CancelClears | crates/api/src/worker.rs:730-752 | In every reachable state the order is then on neither side of the book |
| CancelRows.CancelsNothingElse | crates/api/src/worker.rs:716-728 | Another user's order, a row of any other status or a missing row changes nothing, and only those |
| CancelRows.CancelAllClears | crates/api/src/worker.rs:797-819 | If all open rows of the user are listed, in any order, none is left, their orders are out of the book, and no row of another user changes |
| Solvency.MatchBalance | crates/shared/src/integration_tests.rs:1686-1698 | One match in balance: obligations before = obligations after + stopped orders + what the trades take + price improvement, for every order |
| SolvencyRuns.PlaceKeepsSolvent | crates/gateway/src/worker.rs:351-404 | Placing an order that is paid for keeps the exact account of every locked unit |
| SolvencyRuns.PlaceExactly | crates/gateway/src/worker.rs:351-361 | After an accepted order every row has locked what open orders, stopped orders and pending matches need from it, if and only if a market buy has its cost on the book locked beyond that |
| Draining.JobExactly | crates/api/src/routes.rs:702-734 | On any table without debts that has the row of what the job releases: persisting it keeps every total if and only if all that it takes is locked; otherwise a clamp fires and a total rises |
| Draining.DrainExactly | crates/api/src/routes.rs:60-106 | Persisting all pending matches, in any order, keeps every total if and only if every row has locked what they take together |
| Draining.MarketBuyExactly | crates/gateway/src/worker.rs:351-361 | With a market buy placed after any allowed run, that is: if and only if the buyer's quote row has locked what the pending matches and the buy take; the buy takes its cost as read off the book, under every STP mode |
| Draining.UnlockedCreates | crates/gateway/src/worker.rs:562-596 | On a table in which nothing is locked, persisting a trade raises the total of the base asset, with inserts or by updates alone |
| EquivalenceLaws.CostIsServed | crates/shared/src/engine.rs:70-162 | The money that a match moves, from the order and the book alone, under every STP mode and time in force |
| SolvencyRuns.PersistKeepsSolvent | crates/api/src/routes.rs:651-760 | Persisting any pending match, in any order, keeps it, with missing rows inserted |
| SolvencyRuns.PersistExistingExactly | crates/gateway/src/worker.rs:562-596 | With updates alone it is kept if and only if every row credited with a nonzero amount exists |
| SolvencyRuns.NoClamp | crates/gateway/src/worker.rs:582-596 | In every row, what a pending match takes is locked, so GREATEST(..., 0) never cuts |
| SolvencyRuns.CancelExactly | crates/api/src/worker.rs:757-768 | A cancellation keeps the exchange solvent if and only if the row says what the order holds |
| SolvencyRuns.WholeRunSolvency | crates/shared/src/integration_tests.rs:1799-1809 | Over every run of orders that are paid for and exact cancellations: locked = start + open and stopped obligations + pending takes + improvement; available never negative; totals per asset constant; no clamp |
| SolvencyRuns.WholeRunExisting | crates/gateway/src/worker.rs:528-646 | The same over every run that settles by updates alone, if the credited rows exist at each persist |
| CancelLaws.AgreesExactly | crates/api/src/worker.rs:757-768 | In every state that such runs reach, the row says what the order holds if and only if nothing of value it traded is unpersisted and its refund goes where its lock is, or is worth nothing |
| CancelLaws.GuardedRuns | crates/shared/src/integration_tests.rs:1799-1809 | The whole-run account and the recovery invariant together, with guards on steps that a caller can check beforehand |
| CancelLaws.CancelExactlyInOrder | crates/api/src/worker.rs:706-768 | After such a run, a cancellation keeps the exchange solvent if and only if that guard holds |
| CancelLaws.OtherQuoteStrands | crates/api/src/worker.rs:761-768 | Cancelling a buy on a pair with another quote asset leaves its lock as it was and takes the amount from what is locked in USDT, below zero if need be |
| Races.CancelRaceMints | crates/api/src/worker.rs:706-768 | A run from an empty exchange: a cancellation between fill and persistence creates a unit |
| Races.MarketBuyMints | crates/gateway/src/worker.rs:351-361 | A market buy locks nothing, and its settlement pays the seller what nobody had |
| Races.NegativePriceFrees | crates/api/src/routes.rs:569-586 | A buy at a negative price is always accepted, and a lock raises what is available exactly if the price is negative |
| Races.OutOfOrderResurrects | crates/gateway/src/worker.rs:503-596 | A run from an empty exchange: a match persisted before that of an order it filled brings the filled order back at the next cold start |
| Races.StoppedComesBack | crates/shared/src/cache.rs:602-704 | A run: CancelMaker stops a resting order, everything is persisted, and the seeded book has the order that the live book has not |
| Recovery.PersistRowsAt | crates/gateway/src/worker.rs:503-627 | The row statements act on each row on its own, in closed form |
| Recovery.MatchFollows | crates/gateway/src/worker.rs:598-614 | A resting order's row after a match is what is left of the order in the book, or the order as it was if STP took it out; other rows stay |
| Recovery.MatchMirrors | crates/gateway/src/worker.rs:598-614 | The row of a resting order that is not stopped becomes what the match makes of the order, closed or open, status included |
| Recovery.InsertedOnce | crates/gateway/src/worker.rs:503-507 | Persisting the match of a resting order again undoes no fill |
| FillRuns.FilledExactly | crates/gateway/src/worker.rs:503-627 | Over every run of harmless steps, with nothing pending, an uncancelled order's row is Filled if and only if it traded its whole quantity, and has left what it did not trade |
| RecoveryRuns.PersistExactly | crates/gateway/src/worker.rs:503-627 | In every reachable state, persisting any pending match keeps rows and book in step if and only if it filled no order whose own match is pending before it |
| RecoveryRuns.RunKeepsTracked | crates/gateway/src/worker.rs:487-653 | Over every run of harmless steps, cancellations at any time: the open rows, once pending matches are in, are the resting and the stopped orders |
| ColdCache.SeedOrderbook | crates/shared/src/cache.rs:602-704 | The cold-start loop saves the selected rows into the sets and hashes |
| RecoveryRuns.SameFindsSameSide | crates/shared/src/cache.rs:362-372 | A sorted side is determined by the orders in it |
| RecoveryRuns.ColdStart | crates/shared/src/cache.rs:602-704 | After any run of harmless steps, rebuilding from the open good-till-cancelled rows, in any order, gives the live book if and only if no stopped order has an open row |
| ColdCache.ColdStartOfCache | crates/shared/src/cache.rs:602-704 | Seeding empty sets and hashes represents the live book under exactly the same condition |
| RecoveryRuns.ColdStartIsExact | crates/shared/src/cache.rs:602-704 | Without STP, or with CancelTaker only, it always does |
| Store.Cache.SaveOrderToBook | crates/shared/src/cache.rs:362-391 | ZADD and HSET |
| Store.Cache.RemoveOrderFromBook | crates/shared/src/cache.rs:394-407 | ZREM and DEL |
| Store.Cache.LoadOrderBookSnapshot | crates/shared/src/cache.rs:906-967 | The orders within the price bound whose hash is there, and the version, absent read as zero |
| Store.Cache.ApplyBookMutationsCas | crates/shared/src/cache.rs:1016-1143 | Hashes written ahead whatever the version; the swap happens exactly if the version is the expected one |
| Store.BoundedLoad | crates/shared/src/cache.rs:454-485 | Up to any bound that reaches the limit, the load is a prefix of the side, and matching on it gives the result of matching on the whole side |
| Store.LoadsCompatible | crates/shared/src/cache.rs:454-485 | With its own bound an order loads exactly the resting orders within its price |
| Store.CycleIsSubmit | crates/shared/src/cache.rs:1037-1142 | One worker's load, match, write ahead and swap on a store that represents valid books represents the submission |
| Store.CycleStaysClean | crates/shared/src/cache.rs:1037-1142 | If the cache has a hash for exactly the orders of the books, so it has after the cycle: what was filled or cancelled leaves no hash |
| Occ.RunKeepsSafe | crates/shared/src/cache.rs:906-1143 | The invariant of all interleavings: versions read never ahead, ids read current while the version stands, no id removed twice |
| Occ.CommitsAgainstWhatItRead | crates/shared/src/cache.rs:976-1006 | A successful swap commits against exactly the ids that its worker read and removes only some of them |
| Occ.NoOrderRemovedTwice | crates/shared/src/cache.rs:1083-1142 | In every interleaving no resting order is removed by two commits |
| Occ.AbsentVersionBlocks | crates/shared/src/cache.rs:976-980 | While the version key is absent every swap conflicts, and nothing creates it |
| OccRuns.Serialisable | crates/shared/src/cache.rs:906-1143 | If every partial fill written ahead is committed by the next swap that succeeds, the interleaving leaves the books of the committed orders submitted in commit order |
| OccRuns.PartialFillCommits | crates/shared/src/cache.rs:1083-1142 | A partial fill that meets that condition: written ahead, then committed |
| OccSerial.WriteAheadExactly | crates/shared/src/cache.rs:1083-1112 | Writing ahead keeps the books if and only if the id is in neither set or the hash does not change |
| OccSerial.ConflictKeepsPartialFill | crates/shared/src/cache.rs:1083-1142 | A run in which a conflicting worker's partial fill stays in the maker's hash |
| PairLock.MutualExclusion | crates/shared/src/lock.rs:67-148 | At most one worker is inside, it owns the lock, and a release by anybody else changes nothing |
| PairLock.OverrunAdmits | crates/shared/src/lock.rs:67-80 | Another worker can enter at a tick if and only if the section has outlived its lock |
| PairLock.LeaseLasts | crates/shared/src/lock.rs:67-80 | A lock that nobody releases is held for exactly five ticks |
| PairLock.AbandonedHolds | crates/shared/src/lock.rs:29-50 | A crashed worker, or a dropped guard whose release has not come, keeps others out until the lock runs out, and no longer |
| PairLock.LateReleaseAdmits | crates/shared/src/lock.rs:32-50 | The background release of a dropped guard frees a lock that the same worker acquired later |
| PairLock.LateReleaseRun | crates/shared/src/lock.rs:32-50 | A run from an idle pair to two workers inside: drop, expiry, the same worker acquires again, the first release comes, another acquires |
| PairLock.FenceIncreases | crates/shared/src/lock.rs:82-90 | As long as the counter answers, the fence tokens strictly increase |
| PairLock.NeverOverfilled | crates/shared/src/integration_tests.rs:714-784 | Over every run of lock-protected cycles, crashes included, no order trades more than its quantity |
| PairLock.PairKeys.AcquireLock | crates/shared/src/lock.rs:67-114 | Takes the lock at the first of twenty tries at which it is free, whatever other workers do to the key and the counter between tries; counts the fence, token 1 if the counter fails; gives up only if it was held at every try |
| PairLock.PairKeys.ReleaseLock | crates/shared/src/lock.rs:121-149 | Deletes the key exactly if it is held by this worker's id |
| PairLock.PairKeys.ReleaseGuard | crates/shared/src/lock.rs:52-60 | An explicit release deletes the key exactly if its worker holds it, and leaves nothing for the drop to do |
| PairLock.PairKeys.DropGuard | crates/shared/src/lock.rs:29-50 | A dropped guard spawns a release unless it was released already |
| PairLock.PairKeys.RunSpawned | crates/shared/src/lock.rs:29-50 | A spawned release, run at any later time, deletes the key exactly if its worker holds it by then |
| MatchScript.MatchOrderLua | crates/shared/src/lua/match_order.lua:65-246 | The script on sets and hashes in place: candidates, skips, STP, fills, time in force, resting, version |
| MatchScript.LimitExactly | crates/shared/src/lua/match_order.lua:80-93 | Looking at the first n orders gives the engine's result if and only if the engine acts on at most n |
| MatchScript.ScriptFills | crates/shared/src/lua/match_order.lua:80-204 | Without inherited modes the script trades min(quantity, what the first fifty orders within the price offer) |
| MatchScript.FiftyOfFiftyOne | crates/shared/src/lua/match_order.lua:80-82 | Of fifty-one one-unit orders within the price, a taker of fifty-one trades fifty in the script and fifty-one in the engine |
| MatchScript.MarketMakerPrice | crates/shared/src/lua/match_order.lua:158-161 | A resting market order trades at the taker's price, as in the engine |
| MatchScript.StaleIgnored | crates/shared/src/lua/match_order.lua:96-112 | Candidates whose hash is gone, closed or used up make no difference to anything the script does |
| MatchScript.ScriptInvalidates | crates/shared/src/lua/match_order.lua:234 | The script counts the version up, so a worker that read it before cannot commit |
| MatchScript.ScriptRefinesSubmit | crates/shared/src/lua/match_order.lua:65-246 | The script leaves the books, trades and status of the engine on the simple books; the remaining quantity too, unless STP stops the taker |
| MatchScript.ScriptStaysClean | crates/shared/src/lua/match_order.lua:120-232 | The same of the script, in the cases in which it refines the engine |
| MatchScript.MarketRests | crates/shared/src/lua/match_order.lua:206-232 | A market order marked good-till-cancelled rests whenever something is left, which the engine never allows |
| MatchScript.InheritedExactly | crates/shared/src/lua/match_order.lua:129-150 | A taker without a mode trades in the script as in the engine, on a side of any length, if and only if none of the own orders that the engine acts on has a mode |
| MatchScript.InheritedModeDiffers | crates/shared/src/lua/match_order.lua:129-150 | What the script does instead at such an order, for CancelMaker, CancelTaker and CancelBoth |
| MatchScript.ScriptTradesExactly | crates/shared/src/lua/match_order.lua:80-204 | The script makes the engine's trades if and only if no mode is inherited among the candidates that the engine acts on, and the candidates fill the taker as far as the whole side |
| ScriptGateway.ReleaseByScript | crates/gateway/src/worker.rs:614-653 | The gateway persists the script's order: it is the engine's, and releases as much, unless STP stops the taker short: then it releases nothing and the engine's would have released the rest |
| Snapshot.AggregateSide | crates/shared/src/cache.rs:778-806 | Levels have distinct prices and hold all positive remainings at their price among the first orders; strictly ordered on a sorted side |
| Snapshot.ShownAreBest | crates/shared/src/cache.rs:778-784 | On a cache that represents valid books these are the best orders of the side, as many as asked for |
| Snapshot.OneSnapshot | crates/shared/src/cache.rs:778-806 | Strictly ordered levels with those sums are unique |
| Snapshot.DecodeMessage | crates/shared/src/cache.rs:864-888 | The decoder's loops over the flat array |
| Snapshot.WireRoundTrip | crates/shared/src/cache.rs:808-888 | Both sides come back in order if and only if every quantity is below 10^14 (others print with an exponent and read as zero) and no bid price is negative |
| Snapshot.LostInTransit | crates/shared/src/cache.rs:864-888 | What a level reads as otherwise: a bid without its sign, a quantity of fifteen digits as zero |
| Snapshot.CutShort | crates/shared/src/cache.rs:864-888 | A side with fewer texts than counted reads as the levels whose two texts are there |
| FixedPoint.DecimalRoundTrip | crates/shared/src/cache.rs:49-55 | A decimal survives scaling if and only if it is a multiple of 10^-8 in range |
| FixedPoint.ScaledBound | crates/shared/src/cache.rs:465-472 | Scaling is monotone in range, so the scaled price bound misses no compatible order |
| FixedPoint.TruncatedBound | crates/shared/src/cache.rs:465-472 | A limit off the grid is truncated, and a stored price within the limit is within the truncated bound |
| FixedPoint.LockAmountExact | crates/gateway/src/worker.rs:352-361 | The lock of every validated limit order is exact: of a buy if tick times lot is on the grid, of a sell if the lot is |
| FixedPoint.SellLockInexact | crates/gateway/src/worker.rs:461-480 | Tick times lot on the grid is not enough for a sell |
| FixedPoint.LocksAtMost | crates/shared/src/cache.rs:49-51 | Truncation locks at most the amount, and less than one unit less |
| FixedPoint.TruncatesTowardZero | crates/shared/src/cache.rs:49-51 | A negative decimal loses less than one unit, upwards |
| FixedPoint.TooLargeIsZero | crates/shared/src/cache.rs:49-51 | A decimal beyond 2^63 hundred-millionths becomes zero |
| Codec.ParsesBack | crates/shared/src/cache.rs:216-307 | Every stored order parses back, with what is lost in price, amounts, status and time stated |
| Codec.HashRoundTrip | crates/shared/src/cache.rs:216-391 | It parses back as itself if and only if amounts are on the grid, the price is none or a nonzero limit price on the grid, it was not rejected, and its time, in whole seconds if before 1970, is one that the calendar represents |
| Codec.MissingFields | crates/shared/src/cache.rs:216-283 | A missing price reads as none, a missing version as one, and without any other field there is no order |
| Codec.UnknownTexts | crates/shared/src/cache.rs:228-266 | An unknown status reads as New, an unknown mode as none; an unknown side, type or time in force is no order |
| Codec.ScriptReadsAlike | crates/shared/src/cache.rs:184-211 | The texts that the matching script compares with mean there what they mean here |

## Left out

- Trade ids, sequence numbers, wall-clock times, client order ids and the order's version field: no property here depends on them; the codec has its own record for the fields that the hash keeps.
- Time priority in the store: sorted sets break ties by member, so the store's order is by score and id; price-time priority is claimed for the slice that the engine is given.
- SolvencyRuns.WholeRunSolvency: nonnegative limit prices only, though the source does not reject others (`NegativePriceFrees`). Market buys, which lock nothing, only if their buyers have their cost locked beyond what is needed (`PlaceExactly`; `MarketBuyMints` is one that is not). One pair per run.
- SolvencyRuns.NoClamp: one ledger, on which locks and settlements meet, as the integration tests have it. The gateway locks in the cache (`crates/shared/src/lua/match_order.lua:60-67`, amounts above zero only) and settles on the SQL table, whose own lock statement is not called (`crates/api/src/routes.rs:568-586`): there the clamp fires on every trade (`UnlockedCreates`).
- LedgerLaws.BatchIndependence: amounts that are not negative; with negative ones the condition is the one of `BatchesExactly`. The batch theorems assume that the rows exist.
- Balances cached in Redis (`LOCK_BALANCE_LUA`, unlock) and the balance lock inside the script: the same arithmetic as the table's, without its own properties.
- Ledger: recovery and guarded runs use the API's settlement, which inserts missing rows; the gateway's, which does not, is compared with it step by step (`ExistingExactly`, `PersistExistingExactly`) and has its own whole-run theorem (`WholeRunExisting`).
- Order rows in the batch path, where all incoming rows are rewritten after all updates of resting rows.
- Exchange.Stores.ProcessOrder: the lock is taken on the table, not in the cache. Validation is modelled apart (`Validates`), and the match step is the engine's. The gateway calls the script: under the conditions of `ScriptRefinesSubmit` books, trades and status are the same, but a taker that STP stops short comes back with nothing remaining, and its lock is never released (`ReleaseByScript`).
- Fill-or-kill in the workers, which only cancel it: modelled in the engine. The "modify" message is a cancellation followed by a new order, which runs cover as two steps.
- PairLock.NeverOverfilled: a section's trades count when it releases, so those of a crashed section are dropped. A worker that hands out trades before its writes are in and then crashes is not modelled. Loading the side is one step of a section; with mutual exclusion proved, its reads cannot be interleaved with another section's writes.
- Occ.RunKeepsSafe: all book changes go through the swap. Plain saves and removals do not bump the version and are outside the interleavings.
- MatchScript.MatchOrderLua: the balance lock at the script's start, the expiry it sets on hashes, and the printing of numbers.
- MatchScript.ScriptRefinesSubmit: not an equivalence beyond the trades. A taker that its own fifty-first order would stop may end alike in both. The hour after which a resting hash expires, and numbers of 10^14 and more, which the script prints with an exponent, are not modelled.
- Snapshot.WireRoundTrip: sums are exact integers; the script's doubles are exact up to 2^53. The rounding of a printed mantissa is a parameter.
- Codec.HashRoundTrip: which texts are UUIDs, and the first and last second that the calendar library represents, are parameters. FixedPoint has reals for decimals, without their 28-digit limit.
- The retry backoff and its jitter: the lock's tries are given times.
- Pools, pub/sub, streams, HTTP and WebSocket routes, metrics, migrations, the audit log, warmup orders, the frontend and the benchmarks: input and output plumbing.
