/** The balance table: locking, settling, releasing, trade by trade or aggregated in batches.
    (crates/api/src/routes.rs, crates/gateway/src/worker.rs) */
module Ledger {
  import opened Types

  datatype Key = Key(user: UserId, asset: Asset)

  datatype Balance = Balance(available: int, locked: int)

  type Table = map<Key, Balance>

  /** What is persisted for one matched order: its final state and its trades. */
  datatype Job = Job(order: Order, trades: seq<Trade>)

  // ---- Single statements on the table ------------------------------------------------------------

  function LockKey(order: Order): Key {
    Key(order.user, if order.side.Buy? then order.pair.quote else order.pair.base)
  }

  /** What an order with this much left keeps locked. */
  function LockedFor(order: Order, quantity: int): int {
    if order.side.Buy? then order.PriceOrZero() * quantity else quantity
  }

  /** UPDATE ... WHERE available >= amount: no row, no lock. */
  function Lock(t: Table, order: Order): Option<Table> {
    var k, amount := LockKey(order), LockedFor(order, order.quantity);
    if k in t && t[k].available >= amount
    then Some(t[k := Balance(t[k].available - amount, t[k].locked + amount)])
    else None
  }

  /** locked = GREATEST(locked - amount, 0), if the row exists. */
  function Debit(t: Table, k: Key, amount: int): Table {
    if k in t then t[k := t[k].(locked := Max(t[k].locked - amount, 0))] else t
  }

  /** Insert the row, or add to what is available. */
  function Credit(t: Table, k: Key, amount: int): Table {
    if k in t then t[k := t[k].(available := t[k].available + amount)] else t[k := Balance(amount, 0)]
  }

  function Cost(trade: Trade): int { trade.price * trade.quantity }

  function BuyerQuote(t: Trade): Key { Key(t.buyer, t.pair.quote) }
  function BuyerBase(t: Trade): Key { Key(t.buyer, t.pair.base) }
  function SellerBase(t: Trade): Key { Key(t.seller, t.pair.base) }
  function SellerQuote(t: Trade): Key { Key(t.seller, t.pair.quote) }

  function SettleTrade(t: Table, trade: Trade): Table {
    var t1 := Debit(t, BuyerQuote(trade), Cost(trade));
    var t2 := Credit(t1, BuyerBase(trade), trade.quantity);
    var t3 := Debit(t2, SellerBase(trade), trade.quantity);
    Credit(t3, SellerQuote(trade), Cost(trade))
  }

  function SettleTrades(t: Table, trades: seq<Trade>): Table
    decreases trades
  {
    if trades == [] then t else SettleTrades(SettleTrade(t, trades[0]), trades[1..])
  }

  /** available + amount, locked = GREATEST(locked - amount, 0), if the row exists. */
  function Unlock(t: Table, k: Key, amount: int): Table {
    if k in t then t[k := Balance(t[k].available + amount, Max(t[k].locked - amount, 0))] else t
  }

  /** The release of what a resolved order has left. */
  predicate Releases(order: Order) { order.IsClosed() && order.remaining != 0 }

  function Release(t: Table, order: Order): Table {
    if Releases(order) then Unlock(t, LockKey(order), LockedFor(order, order.remaining)) else t
  }

  // ---- Aggregated deltas ---------------------------------------------------------------------------

  function TradeDecrease(t: Trade, k: Key): int {
    (if k == BuyerQuote(t) then Cost(t) else 0) + (if k == SellerBase(t) then t.quantity else 0)
  }

  function TradeIncrease(t: Trade, k: Key): int {
    (if k == BuyerBase(t) then t.quantity else 0) + (if k == SellerQuote(t) then Cost(t) else 0)
  }

  function Decrease(trades: seq<Trade>, k: Key): int {
    if trades == [] then 0 else TradeDecrease(trades[0], k) + Decrease(trades[1..], k)
  }

  function Increase(trades: seq<Trade>, k: Key): int {
    if trades == [] then 0 else TradeIncrease(trades[0], k) + Increase(trades[1..], k)
  }

  function TradeKeys(t: Trade): set<Key> { {BuyerQuote(t), BuyerBase(t), SellerBase(t), SellerQuote(t)} }

  function Touched(trades: seq<Trade>): set<Key> {
    if trades == [] then {} else TradeKeys(trades[0]) + Touched(trades[1..])
  }

  function Shift(b: Balance, decrease: int, increase: int): Balance {
    Balance(b.available + increase, Max(b.locked - decrease, 0))
  }

  /** A row after its statement with the summed deltas of the trades. */
  function Row(t: Table, trades: seq<Trade>, k: Key): Balance {
    if k in t then Shift(t[k], Decrease(trades, k), Increase(trades, k)) else Balance(Increase(trades, k), 0)
  }

  /** The statements for some of the touched rows. */
  function ApplySome(t: Table, trades: seq<Trade>, done: set<Key>): Table {
    map k | k in t.Keys + done :: if k in done then Row(t, trades, k) else t[k]
  }

  /** One statement per touched row. */
  function ApplyDeltas(t: Table, trades: seq<Trade>): Table { ApplySome(t, trades, Touched(trades)) }

  /** One job: its trades aggregated, then the release. */
  function PersistJob(t: Table, job: Job): Table { Release(ApplyDeltas(t, job.trades), job.order) }

  /** UPDATE ... FROM UNNEST: the gateway's statement inserts no row. */
  function UpdateExisting(t: Table, trades: seq<Trade>): Table {
    map k | k in t :: if k in Touched(trades) then Row(t, trades, k) else t[k]
  }

  function PersistJobExisting(t: Table, job: Job): Table { Release(UpdateExisting(t, job.trades), job.order) }

  function AllTrades(jobs: seq<Job>): seq<Trade> {
    if jobs == [] then [] else jobs[0].trades + AllTrades(jobs[1..])
  }

  function ReleaseAll(t: Table, jobs: seq<Job>): Table
    decreases jobs
  {
    if jobs == [] then t else ReleaseAll(Release(t, jobs[0].order), jobs[1..])
  }

  /** A whole batch: all trades aggregated, then all releases. */
  function PersistBatch(t: Table, jobs: seq<Job>): Table {
    ReleaseAll(ApplyDeltas(t, AllTrades(jobs)), jobs)
  }

  function PersistBatches(t: Table, batches: seq<seq<Job>>): Table
    decreases batches
  {
    if batches == [] then t else PersistBatches(PersistBatch(t, batches[0]), batches[1..])
  }

  lemma {:induction false} DeltaConcat(a: seq<Trade>, b: seq<Trade>, k: Key)
    ensures Decrease(a + b, k) == Decrease(a, k) + Decrease(b, k)
    ensures Increase(a + b, k) == Increase(a, k) + Increase(b, k)
    ensures Touched(a + b) == Touched(a) + Touched(b)
  {
    if a == [] {
      assert a + b == b;
    } else {
      assert (a + b)[0] == a[0] && (a + b)[1..] == a[1..] + b;
      DeltaConcat(a[1..], b, k);
    }
  }

  // ---- Accumulating deltas -------------------------------------------------------------------------

  datatype Delta = Delta(decrease: int, increase: int)

  function DeltaAt(deltas: map<Key, Delta>, k: Key): Delta {
    if k in deltas then deltas[k] else Delta(0, 0)
  }

  function Add(deltas: map<Key, Delta>, k: Key, decrease: int, increase: int): map<Key, Delta> {
    var d := DeltaAt(deltas, k);
    deltas[k := Delta(d.decrease + decrease, d.increase + increase)]
  }

  function AddTrade(deltas: map<Key, Delta>, trade: Trade): map<Key, Delta> {
    var d1 := Add(deltas, BuyerQuote(trade), Cost(trade), 0);
    var d2 := Add(d1, BuyerBase(trade), 0, trade.quantity);
    var d3 := Add(d2, SellerBase(trade), trade.quantity, 0);
    Add(d3, SellerQuote(trade), 0, Cost(trade))
  }

  /** The map holds exactly the summed deltas of the trades. */
  ghost predicate Sums(deltas: map<Key, Delta>, trades: seq<Trade>) {
    && deltas.Keys == Touched(trades)
    && forall k :: DeltaAt(deltas, k) == Delta(Decrease(trades, k), Increase(trades, k))
  }

  lemma AddTradeKey(deltas: map<Key, Delta>, trade: Trade, k: Key)
    ensures var d := DeltaAt(deltas, k);
      DeltaAt(AddTrade(deltas, trade), k) == Delta(d.decrease + TradeDecrease(trade, k),
          d.increase + TradeIncrease(trade, k))
  {
  }

  lemma AddTradeSums(deltas: map<Key, Delta>, trades: seq<Trade>, trade: Trade)
    requires Sums(deltas, trades)
    ensures Sums(AddTrade(deltas, trade), trades + [trade])
  {
    assert [trade][1..] == [];
    DeltaConcat(trades, [trade], BuyerBase(trade));
    assert AddTrade(deltas, trade).Keys == deltas.Keys + TradeKeys(trade);
    forall k
      ensures DeltaAt(AddTrade(deltas, trade), k) == Delta(Decrease(trades + [trade], k), Increase(trades + [trade], k))
    {
      assert DeltaAt(deltas, k) == Delta(Decrease(trades, k), Increase(trades, k));
      AddTradeKey(deltas, trade, k);
      DeltaConcat(trades, [trade], k);
    }
  }

  /** INSERT ... ON CONFLICT DO UPDATE with the delta of one row. */
  function Upsert(t: Table, k: Key, d: Delta): Table {
    t[k := if k in t then Shift(t[k], d.decrease, d.increase) else Balance(d.increase, 0)]
  }

  /** One more row: the others are as they were. */
  lemma ApplyOneMore(t: Table, trades: seq<Trade>, done: set<Key>, deltas: map<Key, Delta>, k: Key)
    requires Sums(deltas, trades) && k in deltas && k !in done
    ensures ApplySome(t, trades, done + {k}) == Upsert(ApplySome(t, trades, done), k, deltas[k])
  {
    assert DeltaAt(deltas, k) == deltas[k];
    var some := ApplySome(t, trades, done);
    assert k in some <==> k in t;
    assert k in t ==> some[k] == t[k];
  }

  lemma ApplyNothing(t: Table, trades: seq<Trade>)
    ensures ApplySome(t, trades, {}) == t
  {
  }

  // ---- The statements of the workers ------------------------------------------------------------

  /** The balances table, updated in place. */
  class Balances {
    var table: Table

    method LockBalance(order: Order) returns (ok: bool)
      modifies this
      ensures ok <==> Lock(old(table), order).Some?
      ensures table == if ok then Lock(old(table), order).value else old(table)
    {
      var k, amount := LockKey(order), LockedFor(order, order.quantity);
      ok := k in table && table[k].available >= amount;
      if ok {
        table := table[k := Balance(table[k].available - amount, table[k].locked + amount)];
      }
    }

    method SettleTradeBalances(trade: Trade)
      modifies this
      ensures table == SettleTrade(old(table), trade)
    {
      var cost := trade.price * trade.quantity;
      table := Debit(table, Key(trade.buyer, trade.pair.quote), cost);
      table := Credit(table, Key(trade.buyer, trade.pair.base), trade.quantity);
      table := Debit(table, Key(trade.seller, trade.pair.base), trade.quantity);
      table := Credit(table, Key(trade.seller, trade.pair.quote), cost);
    }

    method ReleaseRemainingLocked(order: Order)
      modifies this
      ensures table == Release(old(table), order)
    {
      if order.IsClosed() && order.remaining != 0 {
        var k, amount := LockKey(order), LockedFor(order, order.remaining);
        if k in table {
          table := table[k := Balance(table[k].available + amount, Max(table[k].locked - amount, 0))];
        }
      }
    }

    /** Accumulates a delta per touched row, then updates each row once, in any order. */
    method PersistTrades(trades: seq<Trade>)
      modifies this
      ensures table == ApplyDeltas(old(table), trades)
    {
      var deltas := AggregateDeltas(trades);
      UpdateBalances(deltas, trades);
    }

    method UpdateBalances(deltas: map<Key, Delta>, ghost trades: seq<Trade>)
      requires Sums(deltas, trades)
      modifies this
      ensures table == ApplyDeltas(old(table), trades)
    {
      ghost var before, done := table, {};
      var todo := deltas.Keys;
      ApplyNothing(before, trades);
      while todo != {}
        invariant done !! todo && done + todo == deltas.Keys
        invariant table == ApplySome(before, trades, done)
        decreases |todo|
      {
        var k :| k in todo;
        ApplyOneMore(before, trades, done, deltas, k);
        table := Upsert(table, k, deltas[k]);
        todo, done := todo - {k}, done + {k};
      }
    }

    /** The gateway's path: the rows that are there, and then the release. */
    method PersistExisting(job: Job)
      modifies this
      ensures table == PersistJobExisting(old(table), job)
    {
      var deltas := AggregateDeltas(job.trades);
      assert forall k :: k in deltas ==> deltas[k] == DeltaAt(deltas, k);
      table := map k | k in table ::
        if k in deltas then Shift(table[k], deltas[k].decrease, deltas[k].increase) else table[k];
      ReleaseRemainingLocked(job.order);
    }

    method AggregateDeltas(trades: seq<Trade>) returns (deltas: map<Key, Delta>)
      ensures Sums(deltas, trades)
    {
      deltas := map[];
      var i := 0;
      while i < |trades|
        invariant 0 <= i <= |trades|
        invariant Sums(deltas, trades[..i])
      {
        var trade := trades[i];
        var cost := trade.price * trade.quantity;
        AddTradeSums(deltas, trades[..i], trade);
        assert trades[..i + 1] == trades[..i] + [trade];
        deltas := Add(deltas, Key(trade.buyer, trade.pair.quote), cost, 0);
        deltas := Add(deltas, Key(trade.buyer, trade.pair.base), 0, trade.quantity);
        deltas := Add(deltas, Key(trade.seller, trade.pair.base), trade.quantity, 0);
        deltas := Add(deltas, Key(trade.seller, trade.pair.quote), 0, cost);
        i := i + 1;
      }
      assert trades[..i] == trades;
    }

    /** The ledger part of the direct path: one job on its own. */
    method ProcessPersistJob(job: Job)
      modifies this
      ensures table == PersistJob(old(table), job)
    {
      PersistTrades(job.trades);
      ReleaseRemainingLocked(job.order);
    }

    /** The ledger part of the batch path: all trades of the batch, then all releases. */
    method ProcessPersistBatch(batch: seq<Job>)
      modifies this
      ensures table == PersistBatch(old(table), batch)
    {
      var trades := [];
      var i := 0;
      assert batch[0..] == batch;
      while i < |batch|
        invariant 0 <= i <= |batch|
        invariant table == old(table)
        invariant AllTrades(batch) == trades + AllTrades(batch[i..])
      {
        assert batch[i..][0] == batch[i] && batch[i..][1..] == batch[i + 1..];
        trades := trades + batch[i].trades;
        i := i + 1;
      }
      assert trades == AllTrades(batch);
      PersistTrades(trades);
      i := 0;
      ghost var whole := PersistBatch(old(table), batch);
      while i < |batch|
        invariant 0 <= i <= |batch|
        invariant whole == ReleaseAll(table, batch[i..])
      {
        assert batch[i..][0] == batch[i] && batch[i..][1..] == batch[i + 1..];
        ReleaseRemainingLocked(batch[i].order);
        i := i + 1;
      }
    }
  }
}
