/** When a cancellation is exact: if no unpersisted match still has to be paid out of the order, and
    the refund is in the asset that the order locked.  Solvency and recovery over whole runs whose
    cancellations are guarded by that.  (crates/api/src/worker.rs) */
module CancelLaws {
  import opened Types
  import opened Engine
  import opened MatchLaws
  import opened SortedBook
  import opened Books
  import opened Ledger
  import opened LedgerLaws
  import opened Exchange
  import opened Solvency
  import opened SolvencyRuns
  import opened Recovery
  import opened RecoveryRuns

  // ---- Rows are backed by the table -------------------------------------------------------------------

  predicate BackedOrder(p: Pair, t: Table, order: Order) {
    order.pair == p && LockKey(order) in t && (order.IsOpen() ==> order.remaining > 0)
  }

  ghost predicate Backed(p: Pair, s: State) {
    && (forall id :: id in s.rows ==> BackedOrder(p, s.table, s.rows[id]))
    && (forall i :: 0 <= i < |s.pending| ==> BackedOrder(p, s.table, s.pending[i].order))
  }

  lemma PlaceKeepsBacked(p: Pair, s: State, order: Order)
    requires Backed(p, s) && Tracked(s) && NewOrder(order) && order.pair == p
    ensures Backed(p, Place(s, order))
  {
    if Lock(s.table, order).Some? {
      var book := s.books.Of(order.side.Opposite());
      ValidFacts(order.side.Opposite(), book);
      FillAndStatus(order, book);
      assert BackedOrder(p, Place(s, order).table, Match(order, book).result.incoming);
    }
  }

  lemma {:induction false} FillOneBacked(p: Pair, t: Table, row: Order, side: Side, trades: seq<Trade>, id: OrderId)
    requires BackedOrder(p, t, row)
    ensures BackedOrder(p, t, FillOne(row, side, trades, id))
    decreases trades
  {
    if trades != [] {
      var maker := if side.Buy? then trades[0].sellOrder else trades[0].buyOrder;
      FillOneBacked(p, t, if maker == id then Filling(row, trades[0].quantity) else row, side, trades[1..], id);
    }
  }

  lemma PersistKeepsBacked(p: Pair, s: State, i: nat)
    requires Backed(p, s) && i < |s.pending|
    ensures Backed(p, Persist(s, i))
  {
    var s', job := Persist(s, i), s.pending[i];
    assert s.table.Keys <= s'.table.Keys;
    forall id | id in s'.rows ensures BackedOrder(p, s'.table, s'.rows[id]) {
      PersistRowsAt(s.rows, job, id);
      var before := if id in s.rows then s.rows[id] else job.order;
      assert BackedOrder(p, s.table, before) && BackedOrder(p, s.table, job.order);
      FillOneBacked(p, s.table, before, job.order.side, job.trades, id);
    }
    assert forall j :: 0 <= j < |s'.pending| ==> s'.pending[j] == s.pending[if j < i then j else j + 1];
  }

  lemma CancelKeepsBacked(p: Pair, s: State, id: OrderId, user: UserId)
    requires Backed(p, s)
    ensures Backed(p, CancelOrder(s, id, user))
  {
    if Cancellable(s, id, user) {
      assert BackedOrder(p, s.table, s.rows[id]);
      assert s.table.Keys <= CancelOrder(s, id, user).table.Keys;
    }
  }

  // ---- What an order holds ------------------------------------------------------------------------------

  lemma {:induction false} UnderFound(book: seq<Order>, id: OrderId, k: Key)
    requires Distinct(book)
    ensures Under(book, id, k) == if Find(book, id).Some? then Obligation(Find(book, id).value, k) else 0
  {
    if book != [] {
      UnderFound(book[1..], id, k);
      FindFacts(book[1..], id);
    }
  }

  function Holding(found: Option<Order>, k: Key): int { if found.Some? then Obligation(found.value, k) else 0 }

  lemma HeldFound(s: State, id: OrderId, k: Key)
    requires ValidSide(Buy, s.books.bids) && ValidSide(Sell, s.books.asks) && Distinct(s.stopped) && id in s.rows
    ensures Held(s, id, k) == Holding(Find(s.books.Of(s.rows[id].side), id), k) + Holding(Find(s.stopped, id), k)
  {
    ValidIsDistinct(Buy, s.books.bids);
    ValidIsDistinct(Sell, s.books.asks);
    UnderFound(s.books.Of(s.rows[id].side), id, k);
    UnderFound(s.stopped, id, k);
  }

  /** An open row's order holds the row's amount, less what pending matches take from it. */
  lemma HeldLess(p: Pair, s: State, id: OrderId, user: UserId, k: Key)
    requires Tracked(s) && Causal(s) && Orderly(p, s) && Backed(p, s) && Cancellable(s, id, user)
    ensures var row, taken := s.rows[id], PendingFilled(s.pending, id);
      && row.remaining > 0 && taken >= 0
      && Held(s, id, k) ==
           if k == LockKey(row) && taken < row.remaining then LockedFor(row, row.remaining - taken) else 0
  {
    var row := s.rows[id];
    assert BackedOrder(p, s.table, row);
    SettledForm(s, id);
    PendingNonNegative(s.pending, id);
    assert OpenOnly(Settled(s, id)) == Resting(s, id) && Once(s, id);
    FindFacts(s.books.bids, id);
    FindFacts(s.books.asks, id);
    ValidFacts(Buy, s.books.bids);
    ValidFacts(Sell, s.books.asks);
    HeldFound(s, id, k);
  }

  lemma ZeroProduct(price: int, a: int, b: int)
    requires a > 0 && b > 0
    ensures price * a == 0 <==> price * b == 0
  {
  }

  lemma NonZeroProduct(price: int, q: int)
    ensures price != 0 && q > 0 ==> price * q != 0
  {
  }

  // ---- When a cancellation is exact ------------------------------------------------------------------

  /** The refund goes to the row that the order was locked in. */
  predicate SameAsset(p: Pair, row: Order) { row.side.Sell? || p.quote == USDT }

  /** What a caller can check before cancelling.  Nothing of value that the order traded is still to be
      persisted; and a buy on a pair with another quote asset than USDT, which is refunded in the wrong
      asset, is worth nothing, or has nothing left and no row to be refunded in. */
  predicate Refundable(p: Pair, s: State, id: OrderId)
    requires id in s.rows
  {
    var row, taken := s.rows[id], PendingFilled(s.pending, id);
    if SameAsset(p, row) then LockedFor(row, taken) == 0
    else row.PriceOrZero() == 0 || (taken >= row.remaining && RefundKey(row) !in s.table)
  }

  lemma LockedLess(row: Order, taken: int)
    requires row.remaining > 0 && taken >= 0
    ensures var left := row.remaining - taken;
      LockedFor(row, row.remaining) == (if left > 0 then LockedFor(row, left) else 0) <==> LockedFor(row, taken) == 0
  {
    var price := row.PriceOrZero();
    assert price * (row.remaining - taken) == price * row.remaining - price * taken;
    if taken > 0 {
      ZeroProduct(price, row.remaining, taken);
    }
  }

  lemma AgreesSameAsset(p: Pair, s: State, id: OrderId, user: UserId)
    requires Tracked(s) && Causal(s) && Orderly(p, s) && Backed(p, s) && Cancellable(s, id, user)
    requires SameAsset(p, s.rows[id])
    ensures Agrees(s, id) <==> LockedFor(s.rows[id], PendingFilled(s.pending, id)) == 0
  {
    var row, taken := s.rows[id], PendingFilled(s.pending, id);
    var key := LockKey(row);
    assert BackedOrder(p, s.table, row);
    HeldLess(p, s, id, user, key);
    LockedLess(row, taken);
    assert Refunded(s, id, key) == Held(s, id, key) <==> LockedFor(row, taken) == 0;
    forall k | k != key ensures Refunded(s, id, k) == Held(s, id, k) {
      HeldLess(p, s, id, user, k);
    }
  }

  /** A cancelled buy is refunded in USDT whatever its pair. */
  lemma AgreesOtherAsset(p: Pair, s: State, id: OrderId, user: UserId)
    requires Tracked(s) && Causal(s) && Orderly(p, s) && Backed(p, s) && Cancellable(s, id, user)
    requires !SameAsset(p, s.rows[id])
    ensures Agrees(s, id) <==>
      var row := s.rows[id];
      row.PriceOrZero() == 0 || (PendingFilled(s.pending, id) >= row.remaining && RefundKey(row) !in s.table)
  {
    var row, taken := s.rows[id], PendingFilled(s.pending, id);
    var price, key, refund := row.PriceOrZero(), LockKey(row), RefundKey(row);
    assert BackedOrder(p, s.table, row);
    HeldLess(p, s, id, user, key);
    HeldLess(p, s, id, user, refund);
    NonZeroProduct(price, row.remaining);
    NonZeroProduct(price, row.remaining - taken);
    assert Agrees(s, id) ==> Refunded(s, id, key) == Held(s, id, key) && Refunded(s, id, refund) == Held(s, id, refund);
    forall k | k != key && k != refund ensures Refunded(s, id, k) == Held(s, id, k) {
      HeldLess(p, s, id, user, k);
    }
  }

  /** The row says what the order holds exactly if the order is refundable. */
  lemma AgreesExactly(p: Pair, s: State, id: OrderId, user: UserId)
    requires Tracked(s) && Causal(s) && Orderly(p, s) && Backed(p, s) && Cancellable(s, id, user)
    ensures Agrees(s, id) <==> Refundable(p, s, id)
  {
    if SameAsset(p, s.rows[id]) {
      AgreesSameAsset(p, s, id, user);
    } else {
      AgreesOtherAsset(p, s, id, user);
    }
  }

  // ---- Whole runs ------------------------------------------------------------------------------------

  /** New orders are admissible, paid for and under unused ids; no match is persisted before those of the
      orders that it filled; and an order is cancelled only if it is refundable. */
  ghost predicate Guarded(p: Pair, s: State, steps: seq<Step>)
    decreases steps
  {
    steps == [] ||
    (&& (match steps[0]
         case Placed(order) =>
           && Admissible(p, order) && Settled(s, order.id).None?
           && (Lock(s.table, order).Some? ==> PaidFor(s, order))
         case Persisted(i) => i < |s.pending| && Harmless(s, i)
         case Withdrew(id, user) => Cancellable(s, id, user) ==> Refundable(p, s, id))
     && Guarded(p, Take(s, steps[0]), steps[1..]))
  }

  /** Everything that guarded runs keep. */
  ghost predicate Sane(p: Pair, t0: Table, s: State) {
    Solvent(p, t0, s) && Tracked(s) && Causal(s) && Backed(p, s)
  }

  lemma NotStopped(s: State, id: OrderId)
    requires Tracked(s) && Settled(s, id).None?
    ensures id !in s.books.AllIds() + Ids(s.stopped)
  {
    NotResting(s, id);
    FindFacts(s.stopped, id);
  }

  lemma GuardedStep(p: Pair, t0: Table, s: State, step: Step)
    requires Sane(p, t0, s) && Guarded(p, s, [step])
    ensures Sane(p, t0, Take(s, step))
  {
    assert [step][0] == step;
    match step {
      case Placed(order) =>
        NotStopped(s, order.id);
        PlaceKeepsSolvent(p, t0, s, order);
        PlaceKeepsTracked(s, order);
        PlaceKeepsCausal(s, order);
        PlaceKeepsBacked(p, s, order);
      case Persisted(i) =>
        PersistKeepsSolvent(p, t0, s, i);
        PersistExactly(s, i);
        PersistKeepsCausal(s, i);
        PersistKeepsBacked(p, s, i);
      case Withdrew(id, user) =>
        if Cancellable(s, id, user) {
          AgreesExactly(p, s, id, user);
        }
        CancelExactly(p, t0, s, id, user);
        CancelKeepsTracked(s, id, user);
        CancelKeepsCausal(s, id, user);
        CancelKeepsBacked(p, s, id, user);
    }
  }

  lemma {:induction false} RunKeepsSane(p: Pair, t0: Table, s: State, steps: seq<Step>)
    requires Sane(p, t0, s) && Guarded(p, s, steps)
    ensures Sane(p, t0, TakeAll(s, steps))
    decreases steps
  {
    if steps != [] {
      assert [steps[0]][1..] == [];
      GuardedStep(p, t0, s, steps[0]);
      RunKeepsSane(p, t0, Take(s, steps[0]), steps[1..]);
    }
  }

  lemma FreshIsSane(p: Pair, t0: Table)
    requires forall k :: k in t0 ==> t0[k].available >= 0 && t0[k].locked >= 0
    ensures Sane(p, t0, Fresh(t0))
  {
    assert Separated(Books([], []), 0);
  }

  /** Whole-run solvency and recovery with guards that a caller can check.  Every row has locked exactly
      what it started with, what open and stopped orders need, what pending matches will take, and past
      price improvement less what it paid for; nothing available is negative; every asset has the total
      it started with; no pending match meets the clamp; and the open rows, once pending matches are in,
      are the resting and the stopped orders. */
  lemma GuardedRuns(p: Pair, t0: Table, steps: seq<Step>)
    requires forall k :: k in t0 ==> t0[k].available >= 0 && t0[k].locked >= 0
    requires Guarded(p, Fresh(t0), steps)
    ensures var s := TakeAll(Fresh(t0), steps);
      && (forall k :: LockedAt(s.table, k) == LockedAt(t0, k) + Accounts(s, k))
      && (forall k :: At(s.table, k).available >= 0)
      && (forall a :: Total(s.table, a) == Total(t0, a))
      && (forall i, k :: 0 <= i < |s.pending| ==> LockedAt(s.table, k) >= JobDecrease(s.pending[i], k))
      && (forall id :: OpenOnly(Settled(s, id)) == Resting(s, id))
  {
    FreshIsSane(p, t0);
    RunKeepsSane(p, t0, Fresh(t0), steps);
    var s := TakeAll(Fresh(t0), steps);
    forall i, k | 0 <= i < |s.pending| ensures LockedAt(s.table, k) >= JobDecrease(s.pending[i], k) {
      NoClamp(p, t0, s, i, k);
    }
  }

  /** Cancelling after such a run keeps all that if and only if the order is refundable. */
  lemma CancelExactlyInOrder(p: Pair, t0: Table, steps: seq<Step>, id: OrderId, user: UserId)
    requires forall k :: k in t0 ==> t0[k].available >= 0 && t0[k].locked >= 0
    requires Guarded(p, Fresh(t0), steps) && Cancellable(TakeAll(Fresh(t0), steps), id, user)
    ensures var s := TakeAll(Fresh(t0), steps);
      Solvent(p, t0, CancelOrder(s, id, user)) <==> Refundable(p, s, id)
  {
    FreshIsSane(p, t0);
    RunKeepsSane(p, t0, Fresh(t0), steps);
    CancelExactly(p, t0, TakeAll(Fresh(t0), steps), id, user);
    AgreesExactly(p, TakeAll(Fresh(t0), steps), id, user);
  }

  /** What a cancelled buy on a pair with another quote asset leaves: its lock as it was, and a USDT row
      with as much less locked, below zero if it had less. */
  lemma OtherQuoteStrands(p: Pair, s: State, id: OrderId, user: UserId)
    requires Backed(p, s) && Cancellable(s, id, user) && !SameAsset(p, s.rows[id])
    ensures var row, after := s.rows[id], CancelOrder(s, id, user).table;
      && LockedAt(after, LockKey(row)) == LockedAt(s.table, LockKey(row))
      && (RefundKey(row) in s.table ==>
            LockedAt(after, RefundKey(row)) == LockedAt(s.table, RefundKey(row)) - LockedFor(row, row.remaining))
  {
    assert BackedOrder(p, s.table, s.rows[id]);
    CancelAccounts(s, id, user, LockKey(s.rows[id]));
    CancelAccounts(s, id, user, RefundKey(s.rows[id]));
  }
}
