/** One pair's exchange: the live book, the balance table, the order rows, and the matches that are
    not persisted yet.  Its steps place, persist and cancel orders.
    (crates/gateway/src/worker.rs, crates/api/src/worker.rs, crates/api/src/routes.rs) */
module Exchange {
  import opened Types
  import opened Engine
  import opened SortedBook
  import opened Books
  import opened Ledger

  type Rows = map<OrderId, Order>

  /** `stopped` are the resting orders that self-trade prevention took out of the book; nothing
      updates their rows.  `history` is every match so far.  Both are for the statements only. */
  datatype State = State(
    books: Books,
    table: Table,
    rows: Rows,
    pending: seq<Job>,
    stopped: seq<Order>,
    history: seq<Job>)

  // ---- Placing an order ------------------------------------------------------------------------

  /** The resting orders, as they were, that self-trade prevention cancels. */
  function WalkStopped(order: Order, book: seq<Order>): seq<Order>
    decreases book
  {
    if Ends(order, book) then
      if !Stops(order, book) && order.stp.CancelBoth? then [book[0]] else []
    else if SelfTrade(order, book[0]) then [book[0]] + WalkStopped(order, book[1..])
    else WalkStopped(Next(order, book[0]), book[1..])
  }

  function StoppedBy(order: Order, book: seq<Order>): seq<Order> {
    if order.tif.FOK? && Available(order, book) < order.remaining then [] else WalkStopped(order, book)
  }

  /** Lock, match, store the book changes, and queue the match for persistence. */
  function Place(s: State, order: Order): State {
    match Lock(s.table, order)
    case None => s
    case Some(locked) =>
      var opposite := s.books.Of(order.side.Opposite());
      var result := Match(order, opposite).result;
      var job := Job(result.incoming, result.trades);
      State(Submit(s.books, order), locked, s.rows, s.pending + [job],
            s.stopped + StoppedBy(order, opposite), s.history + [job])
  }

  // ---- Persisting a match ------------------------------------------------------------------------

  /** INSERT ... ON CONFLICT DO NOTHING. */
  function InsertRow(rows: Rows, order: Order): Rows {
    if order.id in rows then rows else rows[order.id := order]
  }

  /** The filled resting order of a trade of `taker`. */
  function MakerId(taker: Order, trade: Trade): OrderId {
    if taker.side.Buy? then trade.sellOrder else trade.buyOrder
  }

  /** remaining = GREATEST(remaining - quantity, 0), Filled at zero, only while the row is open. */
  function Filling(row: Order, quantity: int): Order {
    var left := Max(row.remaining - quantity, 0);
    if row.IsOpen() then row.(remaining := left, status := FillStatus(left)) else row
  }

  function FillRow(rows: Rows, id: OrderId, quantity: int): Rows {
    if id in rows then rows[id := Filling(rows[id], quantity)] else rows
  }

  function FillRows(rows: Rows, taker: Order, trades: seq<Trade>): Rows
    decreases trades
  {
    if trades == [] then rows
    else FillRows(FillRow(rows, MakerId(taker, trades[0]), trades[0].quantity), taker, trades[1..])
  }

  /** The final state of an incoming order that does not rest. */
  function UpdateRow(rows: Rows, order: Order): Rows {
    if order.id in rows && !order.IsOpen()
    then rows[order.id := rows[order.id].(remaining := order.remaining, status := order.status)]
    else rows
  }

  function PersistRows(rows: Rows, job: Job): Rows {
    UpdateRow(FillRows(InsertRow(rows, job.order), job.order, job.trades), job.order)
  }

  /** The API writes the final state of every incoming order, one that rests included. */
  function RewriteRow(rows: Rows, order: Order): Rows {
    if order.id in rows
    then rows[order.id := rows[order.id].(remaining := order.remaining, status := order.status)]
    else rows
  }

  function PersistRowsByApi(rows: Rows, job: Job): Rows {
    RewriteRow(FillRows(InsertRow(rows, job.order), job.order, job.trades), job.order)
  }

  function Persist(s: State, i: nat): State
    requires i < |s.pending|
  {
    s.(table := PersistJob(s.table, s.pending[i]),
       rows := PersistRows(s.rows, s.pending[i]),
       pending := s.pending[..i] + s.pending[i + 1..])
  }

  /** The API's path. */
  function PersistByApi(s: State, i: nat): State
    requires i < |s.pending|
  {
    Persist(s, i).(rows := PersistRowsByApi(s.rows, s.pending[i]))
  }

  /** The gateway's path, which inserts no balance row. */
  function PersistExisting(s: State, i: nat): State
    requires i < |s.pending|
  {
    Persist(s, i).(table := PersistJobExisting(s.table, s.pending[i]))
  }

  // ---- Cancelling ------------------------------------------------------------------------------------

  /** The quote asset that a cancelled buy order is refunded in, whatever its pair. */
  const USDT: Asset := 0

  function RefundKey(row: Order): Key {
    Key(row.user, if row.side.Buy? then USDT else row.pair.base)
  }

  /** The refund of a cancellation has no clamp. */
  function Refund(t: Table, k: Key, amount: int): Table {
    if k in t then t[k := Balance(t[k].available + amount, t[k].locked - amount)] else t
  }

  predicate Cancellable(s: State, id: OrderId, user: UserId) {
    id in s.rows && s.rows[id].user == user && s.rows[id].IsOpen()
  }

  /** A cancellation goes by the order's row: book, row and refund. */
  function CancelOrder(s: State, id: OrderId, user: UserId): State {
    if !Cancellable(s, id, user) then s
    else
      var row := s.rows[id];
      s.(books := Withdraw(s.books, row.side, id),
         rows := s.rows[id := row.(status := Cancelled, remaining := 0)],
         table := Refund(s.table, RefundKey(row), LockedFor(row, row.remaining)),
         stopped := RemoveId(s.stopped, id))
  }

  function CancelAll(s: State, ids: seq<OrderId>, user: UserId): State
    decreases ids
  {
    if ids == [] then s else CancelAll(CancelOrder(s, ids[0], user), ids[1..], user)
  }

  // ---- The workers -------------------------------------------------------------------------------------

  /** The stores that the workers update. */
  class Stores {
    var books: Books
    var table: Table
    var rows: Rows
    var pending: seq<Job>
    ghost var stopped: seq<Order>
    ghost var history: seq<Job>

    ghost function Now(): State
      reads this
    {
      State(books, table, rows, pending, stopped, history)
    }

    method ProcessOrder(order: Order) returns (accepted: bool)
      modifies this
      ensures Now() == Place(old(Now()), order)
      ensures accepted <==> Lock(old(table), order).Some?
    {
      var k, amount := LockKey(order), LockedFor(order, order.quantity);
      if k !in table || table[k].available < amount {
        return false;
      }
      table := table[k := Balance(table[k].available - amount, table[k].locked + amount)];
      ghost var opposite := books.Of(order.side.Opposite());
      var result := MatchAndStore(order);
      var job := Job(result.incoming, result.trades);
      pending := pending + [job];
      stopped := stopped + StoppedBy(order, opposite);
      history := history + [job];
      accepted := true;
    }

    /** The match on a slice of the opposite side, and the book changes. */
    method MatchAndStore(order: Order) returns (result: MatchResult)
      modifies this`books
      ensures result == Match(order, old(books).Of(order.side.Opposite())).result
      ensures books == Submit(old(books), order)
    {
      var side := books.Of(order.side.Opposite());
      var slice := new Order[|side|](i requires 0 <= i < |side| => side[i]);
      assert slice[..] == side;
      result := MatchOrder(order, slice);
      var updated := StoreUpdates(side, result.bookUpdates);
      books := books.With(order.side.Opposite(), updated);
      if result.incoming.IsOpen() {
        books := books.With(order.side, SortedBook.Upsert(books.Of(order.side), result.incoming));
      }
    }

    method StoreUpdates(side: seq<Order>, updates: seq<Order>) returns (updated: seq<Order>)
      ensures updated == ApplyUpdates(side, updates)
    {
      updated := side;
      var i := 0;
      assert updates[0..] == updates;
      while i < |updates|
        invariant 0 <= i <= |updates|
        invariant ApplyUpdates(side, updates) == ApplyUpdates(updated, updates[i..])
      {
        var u := updates[i];
        assert updates[i..][0] == u && updates[i..][1..] == updates[i + 1..];
        if u.status.Filled? || u.status.Cancelled? {
          updated := RemoveId(updated, u.id);
        } else {
          updated := SortedBook.Upsert(updated, u);
        }
        i := i + 1;
      }
    }

    method PersistOrder(i: nat)
      requires i < |pending|
      modifies this
      ensures Now() == PersistByApi(old(Now()), i)
    {
      var job := pending[i];
      table := PersistJob(table, job);
      InsertAndFill(job);
      if job.order.id in rows {
        rows := rows[job.order.id := rows[job.order.id].(remaining := job.order.remaining, status := job.order.status)];
      }
      pending := pending[..i] + pending[i + 1..];
    }

    method PersistOrderExisting(i: nat)
      requires i < |pending|
      modifies this
      ensures Now() == PersistExisting(old(Now()), i)
    {
      var job := pending[i];
      table := PersistJobExisting(table, job);
      UpdateRows(job);
      pending := pending[..i] + pending[i + 1..];
    }

    method UpdateRows(job: Job)
      modifies this`rows
      ensures rows == PersistRows(old(rows), job)
    {
      InsertAndFill(job);
      var order := job.order;
      if !order.IsOpen() && order.id in rows {
        rows := rows[order.id := rows[order.id].(remaining := order.remaining, status := order.status)];
      }
    }

    method InsertAndFill(job: Job)
      modifies this`rows
      ensures rows == FillRows(InsertRow(old(rows), job.order), job.order, job.trades)
    {
      if job.order.id !in rows {
        rows := rows[job.order.id := job.order];
      }
      FillMakers(job.order, job.trades);
    }

    /** One statement a trade. */
    method FillMakers(taker: Order, trades: seq<Trade>)
      modifies this`rows
      ensures rows == FillRows(old(rows), taker, trades)
    {
      var j := 0;
      while j < |trades|
        invariant 0 <= j <= |trades|
        invariant FillRows(old(rows), taker, trades) == FillRows(rows, taker, trades[j..])
      {
        assert trades[j..][0] == trades[j] && trades[j..][1..] == trades[j + 1..];
        FillMaker(MakerId(taker, trades[j]), trades[j].quantity);
        j := j + 1;
      }
    }

    method FillMaker(id: OrderId, quantity: int)
      modifies this`rows
      ensures rows == FillRow(old(rows), id, quantity)
    {
      assert id in rows ==> rows[id := rows[id]] == rows;
      if id in rows && rows[id].IsOpen() {
        var left := Max(rows[id].remaining - quantity, 0);
        rows := rows[id := rows[id].(remaining := left, status := if left == 0 then Filled else PartiallyFilled)];
      }
    }

    method ProcessCancellation(id: OrderId, user: UserId)
      modifies this
      ensures Now() == CancelOrder(old(Now()), id, user)
    {
      if id !in rows || rows[id].user != user {
        return;
      }
      var row := rows[id];
      if !row.status.New? && !row.status.PartiallyFilled? {
        return;
      }
      books := books.With(row.side, RemoveId(books.Of(row.side), id));
      rows := rows[id := row.(status := Cancelled, remaining := 0)];
      var k := Key(user, if row.side.Buy? then USDT else row.pair.base);
      var amount := if row.side.Buy? then row.remaining * row.PriceOrZero() else row.remaining;
      if k in table {
        table := table[k := Balance(table[k].available + amount, table[k].locked - amount)];
      }
      stopped := RemoveId(stopped, id);
    }

    method ProcessCancelAll(ids: seq<OrderId>, user: UserId)
      modifies this
      ensures Now() == CancelAll(old(Now()), ids, user)
    {
      var i := 0;
      ghost var last := CancelAll(Now(), ids, user);
      assert ids[0..] == ids;
      while i < |ids|
        invariant 0 <= i <= |ids|
        invariant last == CancelAll(Now(), ids[i..], user)
      {
        assert ids[i..][0] == ids[i] && ids[i..][1..] == ids[i + 1..];
        ProcessCancellation(ids[i], user);
        i := i + 1;
      }
    }
  }
}
