/** The order rows as the account of what was traded: over whole runs, an order's row says what the
    order traded, and is Filled exactly if that is its whole quantity.
    (crates/gateway/src/worker.rs, crates/api/src/routes.rs) */
module FillRuns {
  import opened Types
  import opened Engine
  import opened MatchLaws
  import opened SortedBook
  import opened Books
  import opened Ledger
  import opened LedgerLaws
  import opened Exchange
  import opened SolvencyRuns
  import opened Recovery
  import opened RecoveryRuns

  /** A row that accounts for the quantity traded. */
  predicate Accounts(row: Order, traded: int) {
    && row.remaining == row.quantity - traded && 0 <= traded <= row.quantity && row.quantity > 0
    && (row.status.Filled? <==> traded == row.quantity)
    && (row.status.New? ==> traded == 0)
    && (row.status.PartiallyFilled? ==> 0 < traded)
  }

  /** The row of `id`, once pending matches are in, accounts for all its trades; an id without a row has
      none. */
  ghost predicate Tells(s: State, id: OrderId) {
    var traded := Traded(AllTrades(s.history), id);
    if Settled(s, id).Some? then Accounts(Settled(s, id).value, traded) else traded == 0
  }

  lemma HistoryGrows(s: State, order: Order, id: OrderId)
    requires Lock(s.table, order).Some?
    ensures Traded(AllTrades(Place(s, order).history), id)
         == Traded(AllTrades(s.history), id) + Traded(JobOf(s.books, order).trades, id)
  {
    var job := JobOf(s.books, order);
    TradesConcat(s.history, [job]);
    assert [job][0] == job && [job][1..] == [];
    assert AllTrades([job]) == job.trades + AllTrades([]) == job.trades;
    IdTradedConcat(AllTrades(s.history), job.trades, id);
  }

  /** A row after more fills. */
  lemma FillAccounts(row: Order, traded: int, filled: int)
    requires Accounts(row, traded) && 0 <= filled && (filled > 0 ==> row.IsOpen() && filled <= row.remaining)
    ensures Accounts(FillBy(row, filled), traded + filled)
  {
  }

  /** The row of a new order, after its own match. */
  lemma OwnAccounts(order: Order, book: seq<Order>)
    requires NewOrder(order) && ValidSide(order.side.Opposite(), book) && order.id !in Ids(book)
    ensures var o := Match(order, book); Accounts(o.result.incoming, Traded(o.result.trades, order.id))
  {
    ValidFacts(order.side.Opposite(), book);
    FillAndStatus(order, book);
    ReachableNonNegative(order, book);
    MatchTrades(order, book, order.id);
  }

  lemma PlaceTells(s: State, order: Order, id: OrderId)
    requires Tracked(s) && Causal(s) && NewOrder(order) && Settled(s, order.id).None? && Tells(s, id)
    ensures Tells(Place(s, order), id)
  {
    if Lock(s.table, order).Some? {
      var book, job := s.books.Of(order.side.Opposite()), JobOf(s.books, order);
      assert Place(s, order).pending == s.pending + [job];
      NotResting(s, order.id);
      HistoryGrows(s, order, id);
      MatchTrades(order, book, id);
      MatchKeepsOrder(order, book);
      DrainedConcat(RowAt(s.rows, id), s.pending, job, id);
      PlaceFills(s, order, id);
      if id == order.id {
        StepFills(order, job, id);
        OwnAccounts(order, book);
      } else if Settled(s, id).Some? {
        StepFills(Settled(s, id).value, job, id);
        FillAccounts(Settled(s, id).value, Traded(AllTrades(s.history), id), JobFilled(job, id));
      }
    }
  }

  /** Nobody cancels the order. */
  predicate Untouched(steps: seq<Step>, id: OrderId) {
    forall i :: 0 <= i < |steps| && steps[i].Withdrew? ==> steps[i].id != id
  }

  lemma {:induction false} RunTells(s: State, steps: seq<Step>, id: OrderId)
    requires Tracked(s) && Causal(s) && InOrder(s, steps) && Untouched(steps, id) && Tells(s, id)
    ensures Tells(TakeAll(s, steps), id)
    decreases steps
  {
    if steps != [] {
      var s' := Take(s, steps[0]);
      match steps[0] {
        case Placed(order) => PlaceTells(s, order, id);
        case Persisted(i) => PersistExactly(s, i);
        case Withdrew(other, user) => assert RowAt(s'.rows, id) == RowAt(s.rows, id) && s'.pending == s.pending;
      }
      StepKeepsTracked(s, steps);
      RunTells(s', steps[1..], id);
    }
  }

  /** After any run of harmless steps with nothing pending, the row of an order that nobody cancelled is Filled
      if and only if the order traded its whole quantity; it has left what it did not trade; it is New only
      if it traded nothing, and PartiallyFilled only if it traded something. */
  lemma FilledExactly(t0: Table, steps: seq<Step>, id: OrderId)
    requires InOrder(Fresh(t0), steps) && Untouched(steps, id)
    requires TakeAll(Fresh(t0), steps).pending == []
    ensures var s := TakeAll(Fresh(t0), steps);
      var traded := Traded(AllTrades(s.history), id);
      if id !in s.rows then traded == 0
      else
        var row := s.rows[id];
        && row.remaining == row.quantity - traded
        && (row.status == Filled <==> traded == row.quantity)
        && (row.status == New ==> traded == 0)
        && (row.status == PartiallyFilled ==> 0 < traded < row.quantity)
  {
    assert AllTrades([]) == [];
    assert Settled(Fresh(t0), id) == None;
    RunTells(Fresh(t0), steps, id);
  }
}
