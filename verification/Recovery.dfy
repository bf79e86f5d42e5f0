/** The order rows against the live book: once the pending matches are persisted in match order,
    the open rows are exactly the resting orders, whatever was placed or cancelled in between; and
    what a cold start rebuilds from the rows.
    (crates/gateway/src/worker.rs, crates/api/src/worker.rs, crates/shared/src/cache.rs) */
module Recovery {
  import opened Types
  import opened Engine
  import opened MatchLaws
  import opened EquivalenceLaws
  import opened SortedBook
  import opened Ledger
  import opened Exchange
  import opened SolvencyRuns

  // ---- One row at a time -------------------------------------------------------------------------

  function Find(book: seq<Order>, id: OrderId): Option<Order> {
    if book == [] then None else if book[0].id == id then Some(book[0]) else Find(book[1..], id)
  }

  function Or(a: Option<Order>, b: Option<Order>): Option<Order> { if a.Some? then a else b }

  function OpenOnly(row: Option<Order>): Option<Order> {
    if row.Some? && row.value.IsOpen() then row else None
  }

  function RowAt(rows: Rows, id: OrderId): Option<Order> { if id in rows then Some(rows[id]) else None }

  /** What the trades of a taker on `side` do to the row of `id`. */
  function FillOne(row: Order, side: Side, trades: seq<Trade>, id: OrderId): Order
    decreases trades
  {
    if trades == [] then row
    else
      var maker := if side.Buy? then trades[0].sellOrder else trades[0].buyOrder;
      FillOne(if maker == id then Filling(row, trades[0].quantity) else row, side, trades[1..], id)
  }

  /** What persisting a job does to the row of `id`. */
  function StepRow(row: Option<Order>, job: Job, id: OrderId): Option<Order> {
    var own := job.order.id == id;
    match if own then Or(row, Some(job.order)) else row
    case None => None
    case Some(r) =>
      var filled := FillOne(r, job.order.side, job.trades, id);
      Some(if own && !job.order.IsOpen()
           then filled.(remaining := job.order.remaining, status := job.order.status) else filled)
  }

  /** The row of `id` once the jobs are persisted in order. */
  function Drained(row: Option<Order>, jobs: seq<Job>, id: OrderId): Option<Order>
    decreases jobs
  {
    if jobs == [] then row else Drained(StepRow(row, jobs[0], id), jobs[1..], id)
  }

  lemma {:induction false} FillRowsAt(rows: Rows, taker: Order, trades: seq<Trade>, id: OrderId)
    ensures FillRows(rows, taker, trades).Keys == rows.Keys
    ensures id in rows ==> FillRows(rows, taker, trades)[id] == FillOne(rows[id], taker.side, trades, id)
    decreases trades
  {
    if trades != [] {
      FillRowsAt(FillRow(rows, MakerId(taker, trades[0]), trades[0].quantity), taker, trades[1..], id);
    }
  }

  /** The statements on the whole table, row by row. */
  lemma PersistRowsAt(rows: Rows, job: Job, id: OrderId)
    ensures RowAt(PersistRows(rows, job), id) == StepRow(RowAt(rows, id), job, id)
    ensures PersistRows(rows, job).Keys == rows.Keys + {job.order.id}
  {
    FillRowsAt(InsertRow(rows, job.order), job.order, job.trades, id);
  }

  /** Persisting again the match of an order that rests, without trades, changes no row: what was filled since
      the first time stays filled. */
  lemma InsertedOnce(rows: Rows, job: Job)
    requires job.order.id in rows && job.trades == [] && job.order.IsOpen()
    ensures PersistRows(rows, job) == rows
  {
  }

  lemma {:induction false} DrainedConcat(row: Option<Order>, jobs: seq<Job>, job: Job, id: OrderId)
    ensures Drained(row, jobs + [job], id) == StepRow(Drained(row, jobs, id), job, id)
    decreases jobs
  {
    if jobs == [] {
      assert jobs + [job] == [job] && [job][1..] == [];
    } else {
      assert (jobs + [job])[0] == jobs[0] && (jobs + [job])[1..] == jobs[1..] + [job];
      DrainedConcat(StepRow(row, jobs[0], id), jobs[1..], job, id);
    }
  }

  lemma {:induction false} FillClosed(row: Order, side: Side, trades: seq<Trade>, id: OrderId)
    requires !row.IsOpen()
    ensures FillOne(row, side, trades, id) == row
    decreases trades
  {
    if trades != [] {
      FillClosed(row, side, trades[1..], id);
    }
  }

  /** Only jobs of the order itself bring up its row, and a closed row stays as it is. */
  lemma {:induction false} DrainedFacts(row: Option<Order>, jobs: seq<Job>, id: OrderId)
    ensures row.Some? ==> Drained(row, jobs, id).Some?
    ensures row.None? ==> (Drained(row, jobs, id).None? <==> forall i :: 0 <= i < |jobs| ==> jobs[i].order.id != id)
    ensures row.Some? && !row.value.IsOpen() && (forall i :: 0 <= i < |jobs| ==> jobs[i].order.id != id) ==>
      Drained(row, jobs, id) == row
    decreases jobs
  {
    if jobs != [] {
      DrainedFacts(StepRow(row, jobs[0], id), jobs[1..], id);
      assert forall i :: 1 <= i < |jobs| ==> jobs[i] == jobs[1..][i - 1];
      if row.Some? && !row.value.IsOpen() {
        FillClosed(row.value, jobs[0].order.side, jobs[0].trades, id);
      }
    }
  }

  // ---- Finding orders in a side ------------------------------------------------------------------

  lemma {:induction false} FindFacts(book: seq<Order>, id: OrderId)
    ensures Find(book, id).Some? <==> id in Ids(book)
    ensures Find(book, id).Some? ==> Find(book, id).value in book && Find(book, id).value.id == id
  {
    if book != [] {
      FindFacts(book[1..], id);
    }
  }

  lemma {:induction false} FoundAt(book: seq<Order>, i: nat)
    requires i < |book| && Distinct(book)
    ensures Find(book, book[i].id) == Some(book[i])
  {
    if i > 0 {
      FoundAt(book[1..], i - 1);
      FindFacts(book[1..], book[i].id);
      assert book[1..][i - 1] == book[i];
    }
  }

  lemma {:induction false} FindRemoved(book: seq<Order>, gone: OrderId, id: OrderId)
    ensures Find(RemoveId(book, gone), id) == if id == gone then None else Find(book, id)
  {
    if book != [] {
      FindRemoved(book[1..], gone, id);
      assert ([book[0]] + RemoveId(book[1..], gone))[1..] == RemoveId(book[1..], gone);
    }
  }

  lemma {:induction false} FindInserted(book: seq<Order>, order: Order, id: OrderId)
    requires order.id !in Ids(book)
    ensures Find(Insert(book, order), id) == if id == order.id then Some(order) else Find(book, id)
  {
    if book == [] || Precedes(order, book[0]) {
      assert ([order] + book)[1..] == book;
    } else {
      FindInserted(book[1..], order, id);
      assert ([book[0]] + Insert(book[1..], order))[1..] == Insert(book[1..], order);
    }
  }

  lemma FindUpserted(side: Side, book: seq<Order>, order: Order, id: OrderId)
    requires ValidSide(side, book)
    ensures Find(SortedBook.Upsert(book, order), id) == if id == order.id then Some(order) else Find(book, id)
  {
    RemoveFacts(side, book, order.id);
    FindRemoved(book, order.id, id);
    FindInserted(RemoveId(book, order.id), order, id);
  }

  lemma FindHead(head: Order, tail: seq<Order>, id: OrderId)
    ensures Find([head] + tail, id) == if head.id == id then Some(head) else Find(tail, id)
  {
    assert ([head] + tail)[1..] == tail;
  }

  lemma {:induction false} FindConcat(a: seq<Order>, b: seq<Order>, id: OrderId)
    ensures Find(a + b, id) == Or(Find(a, id), Find(b, id))
  {
    if a == [] {
      assert a + b == b;
    } else {
      assert (a + b)[0] == a[0] && (a + b)[1..] == a[1..] + b;
      FindConcat(a[1..], b, id);
    }
  }

  // ---- A match and the row of a resting order ------------------------------------------------------

  /** The row of an order that rested in `book` becomes, if it stays open, what is left of the order
      in the book, or the order as it was if self-trade prevention took it out.  Other rows stay. */
  ghost predicate Follows(book: seq<Order>, side: Side, o: Outcome, stopped: seq<Order>, row: Order, id: OrderId) {
    var filled := FillOne(row, side, o.result.trades, id);
    var left, out := Find(Live(o.book), id), Find(stopped, id);
    if Find(book, id).None? then left.None? && out.None? && filled == row
    else (left.None? || out.None?) && (row == Find(book, id).value ==> OpenOnly(Some(filled)) == Or(left, out))
  }

  /** Where the walk ends, at most one more order is taken out. */
  lemma LastFollows(order: Order, book: seq<Order>, row: Order, id: OrderId)
    requires Ends(order, book) && ValidSide(order.side.Opposite(), book)
    ensures Follows(book, order.side, Last(order, book), WalkStopped(order, book), row, id)
  {
    ValidFacts(order.side.Opposite(), book);
    LiveOfOpen(book);
    FindFacts(book, id);
    if !Stops(order, book) && order.stp.CancelBoth? {
      LiveHead(Cancel(book[0]), book[1..]);
      LiveOfOpen(book[1..]);
      FindFacts(book[1..], id);
      assert [book[0]][1..] == [];
    }
  }

  lemma {:induction false} WalkFollows(order: Order, book: seq<Order>, row: Order, id: OrderId)
    requires order.remaining >= 0 && ValidSide(order.side.Opposite(), book)
    ensures Follows(book, order.side, Walk(order, book), WalkStopped(order, book), row, id)
    decreases book
  {
    if Ends(order, book) {
      LastFollows(order, book, row, id);
    } else {
      var next, tail := Next(order, book[0]), book[1..];
      var hit := !SelfTrade(order, book[0]) && book[0].id == id;
      assert book == [book[0]] + tail;
      WalkFollows(next, tail, if hit then Filling(row, Fill(order, book[0])) else row, id);
      FrontFollows(order, book[0], tail, Walk(next, tail), WalkStopped(next, tail), row, id);
    }
  }

  lemma FrontFollows(order: Order, head: Order, tail: seq<Order>, rest: Outcome, stopped: seq<Order>, row: Order,
      id: OrderId)
    requires order.remaining > 0 && head.IsOpen() && head.remaining > 0 && head.id !in Ids(tail)
    requires var hit := !SelfTrade(order, head) && head.id == id;
      Follows(tail, order.side, rest, stopped, if hit then Filling(row, Fill(order, head)) else row, id)
    ensures Follows([head] + tail, order.side, Front(order, head, rest),
                    if SelfTrade(order, head) then [head] + stopped else stopped, row, id)
  {
    var o, maker := Front(order, head, rest), Visited(order, head);
    LiveHead(maker, rest.book);
    FindHead(maker, Live(rest.book), id);
    FindHead(head, tail, id);
    FindHead(head, stopped, id);
    FindFacts(tail, id);
    if !SelfTrade(order, head) {
      assert o.result.trades[1..] == rest.result.trades;
      assert row == head ==> Filling(row, Fill(order, head)) == maker;
    }
  }

  lemma MatchFollows(order: Order, book: seq<Order>, row: Order, id: OrderId)
    requires order.remaining >= 0 && ValidSide(order.side.Opposite(), book)
    ensures Follows(book, order.side, Match(order, book), StoppedBy(order, book), row, id)
  {
    if FokRejects(order, book) {
      ValidFacts(order.side.Opposite(), book);
      LiveOfOpen(book);
      FindFacts(book, id);
    } else {
      WalkFollows(order, book, row, id);
    }
  }

  /** The row of a resting order that the match does not stop becomes what the match makes of the order,
      status included: a row that it fills is Filled, one that it fills in part is PartiallyFilled, and
      one that it leaves alone stays as it was. */
  ghost predicate RowMirrors(book: seq<Order>, side: Side, o: Outcome, stopped: seq<Order>, id: OrderId) {
    Find(book, id).Some? && Find(stopped, id).None? ==>
      Find(o.book, id) == Some(FillOne(Find(book, id).value, side, o.result.trades, id))
  }

  lemma {:induction false} WalkMirrors(order: Order, book: seq<Order>, id: OrderId)
    requires order.remaining >= 0 && ValidSide(order.side.Opposite(), book)
    ensures RowMirrors(book, order.side, Walk(order, book), WalkStopped(order, book), id)
    decreases book
  {
    ValidFacts(order.side.Opposite(), book);
    if Ends(order, book) {
      if book != [] {
        FindHead(book[0], book[1..], id);
        FindHead(Cancel(book[0]), book[1..], id);
        assert [book[0]][1..] == [];
      }
    } else {
      WalkMirrors(Next(order, book[0]), book[1..], id);
      FrontMirrors(order, book, id);
    }
  }

  lemma FrontMirrors(order: Order, book: seq<Order>, id: OrderId)
    requires order.remaining > 0 && ValidSide(order.side.Opposite(), book) && !Ends(order, book)
    requires var next, tail := Next(order, book[0]), book[1..];
      RowMirrors(tail, order.side, Walk(next, tail), WalkStopped(next, tail), id)
    ensures RowMirrors(book, order.side, Walk(order, book), WalkStopped(order, book), id)
  {
    var head, next, tail := book[0], Next(order, book[0]), book[1..];
    var o, rest := Walk(order, book), Walk(next, tail);
    ValidFacts(order.side.Opposite(), book);
    FindHead(head, tail, id);
    FindHead(Visited(order, head), rest.book, id);
    FindHead(head, WalkStopped(next, tail), id);
    if !SelfTrade(order, head) {
      assert o.result.trades[0] == TradeOf(order, head, Fill(order, head));
      assert o.result.trades[1..] == rest.result.trades;
      if head.id == id {
        FindFacts(tail, id);
        WalkFollows(next, tail, Filling(head, Fill(order, head)), id);
      }
    }
  }

  /** A maker's row after a match, closed or not. */
  lemma MatchMirrors(order: Order, book: seq<Order>, id: OrderId)
    requires order.remaining >= 0 && ValidSide(order.side.Opposite(), book)
    ensures RowMirrors(book, order.side, Match(order, book), StoppedBy(order, book), id)
  {
    if !FokRejects(order, book) {
      WalkMirrors(order, book, id);
    }
  }

  // ---- Fills in closed form ------------------------------------------------------------------------

  /** The quantity that trades of a taker on `side` fill of order `id`. */
  function FilledBy(side: Side, trades: seq<Trade>, id: OrderId): int {
    if trades == [] then 0
    else
      var maker := if side.Buy? then trades[0].sellOrder else trades[0].buyOrder;
      (if maker == id then trades[0].quantity else 0) + FilledBy(side, trades[1..], id)
  }

  function JobFilled(job: Job, id: OrderId): int { FilledBy(job.order.side, job.trades, id) }

  /** The quantity of resting order `id` that the jobs have traded. */
  function PendingFilled(jobs: seq<Job>, id: OrderId): int {
    if jobs == [] then 0 else JobFilled(jobs[0], id) + PendingFilled(jobs[1..], id)
  }

  ghost predicate PositiveTrades(trades: seq<Trade>) {
    forall i :: 0 <= i < |trades| ==> trades[i].quantity > 0
  }

  /** A row after fills of this much in all. */
  function FillBy(row: Order, filled: int): Order { if filled == 0 then row else Filling(row, filled) }

  lemma FillTwice(row: Order, first: int, second: int)
    requires first >= 0 && second >= 0
    ensures FillBy(FillBy(row, first), second) == FillBy(row, first + second)
  {
  }

  lemma {:induction false} FilledByNonNegative(side: Side, trades: seq<Trade>, id: OrderId)
    requires PositiveTrades(trades)
    ensures FilledBy(side, trades, id) >= 0
  {
    if trades != [] {
      FilledByNonNegative(side, trades[1..], id);
    }
  }

  lemma {:induction false} FillOneForm(row: Order, side: Side, trades: seq<Trade>, id: OrderId)
    requires PositiveTrades(trades)
    ensures FillOne(row, side, trades, id) == FillBy(row, FilledBy(side, trades, id))
    decreases trades
  {
    if trades != [] {
      var maker := if side.Buy? then trades[0].sellOrder else trades[0].buyOrder;
      var first := if maker == id then trades[0].quantity else 0;
      assert trades[0].quantity > 0;
      FilledByNonNegative(side, trades[1..], id);
      FillOneForm(FillBy(row, first), side, trades[1..], id);
      FillTwice(row, first, FilledBy(side, trades[1..], id));
    }
  }

  /** A match fills resting orders only, and none of them beyond what it has left. */
  lemma {:induction false} WalkFilled(order: Order, book: seq<Order>, id: OrderId)
    requires order.remaining >= 0 && ValidSide(order.side.Opposite(), book)
    ensures var trades, found := Walk(order, book).result.trades, Find(book, id);
      && PositiveTrades(trades)
      && 0 <= FilledBy(order.side, trades, id) <= if found.Some? then found.value.remaining else 0
    decreases book
  {
    ValidFacts(order.side.Opposite(), book);
    FindFacts(book, id);
    if !Ends(order, book) {
      var next, tail := Next(order, book[0]), book[1..];
      WalkFilled(next, tail, id);
      FindFacts(tail, id);
      if !SelfTrade(order, book[0]) {
        var trades := Walk(order, book).result.trades;
        assert trades[1..] == Walk(next, tail).result.trades;
        assert trades[0] == TradeOf(order, book[0], Fill(order, book[0]));
      }
    }
  }

  lemma MatchFilled(order: Order, book: seq<Order>, id: OrderId)
    requires order.remaining >= 0 && ValidSide(order.side.Opposite(), book)
    ensures var trades, found := Match(order, book).result.trades, Find(book, id);
      && PositiveTrades(trades)
      && 0 <= FilledBy(order.side, trades, id) <= if found.Some? then found.value.remaining else 0
  {
    WalkFilled(order, book, id);
    ValidFacts(order.side.Opposite(), book);
    FindFacts(book, id);
  }

  // ---- What an order traded --------------------------------------------------------------------------

  /** The quantity traded under an order id, as maker or as taker. */
  function Traded(trades: seq<Trade>, id: OrderId): int {
    if trades == [] then 0
    else
      (if trades[0].buyOrder == id || trades[0].sellOrder == id then trades[0].quantity else 0)
      + Traded(trades[1..], id)
  }

  function LeftIn(book: seq<Order>, id: OrderId): int {
    var found := Find(book, id);
    if found.Some? then found.value.remaining else 0
  }

  lemma {:induction false} IdTradedConcat(a: seq<Trade>, b: seq<Trade>, id: OrderId)
    ensures Traded(a + b, id) == Traded(a, id) + Traded(b, id)
  {
    if a == [] {
      assert a + b == b;
    } else {
      assert (a + b)[0] == a[0] && (a + b)[1..] == a[1..] + b;
      IdTradedConcat(a[1..], b, id);
    }
  }

  /** A walk trades under an id exactly what the order of that id loses. */
  lemma {:induction false} WalkTraded(order: Order, book: seq<Order>, id: OrderId)
    requires order.remaining >= 0 && Positive(book) && Distinct(book) && order.id !in Ids(book)
    ensures var o := Walk(order, book);
      Traded(o.result.trades, id) ==
        if id == order.id then order.remaining - o.result.incoming.remaining
        else LeftIn(book, id) - LeftIn(o.book, id)
    decreases book
  {
    var o := Walk(order, book);
    if Ends(order, book) {
      if book != [] {
        FindHead(book[0], book[1..], id);
        assert o.book[1..] == book[1..];
        FindHead(o.book[0], book[1..], id);
      }
    } else {
      var next, tail := Next(order, book[0]), book[1..];
      WalkTraded(next, tail, id);
      WalkKeepsFound(next, tail, id);
      FindFacts(tail, id);
      FindHead(book[0], tail, id);
      FindHead(Visited(order, book[0]), Walk(next, tail).book, id);
      if !SelfTrade(order, book[0]) {
        assert o.result.trades[1..] == Walk(next, tail).result.trades;
      }
    }
  }

  lemma {:induction false} WalkKeepsFound(order: Order, book: seq<Order>, id: OrderId)
    ensures Find(Walk(order, book).book, id).Some? <==> Find(book, id).Some?
    decreases book
  {
    var after := Walk(order, book).book;
    if Ends(order, book) {
      if book != [] {
        FindHead(after[0], book[1..], id);
      }
    } else {
      WalkKeepsFound(Next(order, book[0]), book[1..], id);
      FindHead(Visited(order, book[0]), Walk(Next(order, book[0]), book[1..]).book, id);
    }
  }

  /** Trades of a taker trade under any other id what they fill of it. */
  lemma {:induction false} TradedIsFilled(order: Order, book: seq<Order>, id: OrderId)
    requires id != order.id
    ensures Traded(Walk(order, book).result.trades, id) == FilledBy(order.side, Walk(order, book).result.trades, id)
    decreases book
  {
    if !Ends(order, book) {
      TradedIsFilled(Next(order, book[0]), book[1..], id);
      if !SelfTrade(order, book[0]) {
        var trades := Walk(order, book).result.trades;
        assert trades[0] == TradeOf(order, book[0], Fill(order, book[0]));
        assert trades[1..] == Walk(Next(order, book[0]), book[1..]).result.trades;
      }
    }
  }

  /** A match trades under its own id what the order lost, and under other ids what it fills. */
  lemma MatchTrades(order: Order, book: seq<Order>, id: OrderId)
    requires order.remaining >= 0 && ValidSide(order.side.Opposite(), book) && order.id !in Ids(book)
    ensures var o := Match(order, book);
      Traded(o.result.trades, id) ==
        if id == order.id then order.remaining - o.result.incoming.remaining
        else FilledBy(order.side, o.result.trades, id)
  {
    ValidFacts(order.side.Opposite(), book);
    ValidIsDistinct(order.side.Opposite(), book);
    if !FokRejects(order, book) {
      if id == order.id {
        WalkTraded(order, book, id);
      } else {
        TradedIsFilled(order, book, id);
      }
    }
  }

  // ---- Matches in causal order -----------------------------------------------------------------------

  /** A match fills orders of earlier matches only, each of its own order. */
  ghost predicate Ordered(jobs: seq<Job>) {
    && (forall i :: 0 <= i < |jobs| ==> PositiveTrades(jobs[i].trades))
    && (forall i, j :: 0 <= i <= j < |jobs| ==> JobFilled(jobs[i], jobs[j].order.id) == 0)
    && (forall i, j :: 0 <= i < j < |jobs| ==> jobs[i].order.id != jobs[j].order.id)
  }

  /** The order of the job of that id, if there is one. */
  function OwnOrder(jobs: seq<Job>, id: OrderId): Option<Order> {
    if jobs == [] then None else if jobs[0].order.id == id then Some(jobs[0].order) else OwnOrder(jobs[1..], id)
  }

  function FilledRow(row: Option<Order>, filled: int): Option<Order> {
    if row.Some? then Some(FillBy(row.value, filled)) else None
  }

  lemma {:induction false} OwnOrderFacts(jobs: seq<Job>, id: OrderId)
    ensures OwnOrder(jobs, id).Some? <==> exists i :: 0 <= i < |jobs| && jobs[i].order.id == id
    ensures OwnOrder(jobs, id).Some? ==> OwnOrder(jobs, id).value.id == id
    ensures (forall i, j :: 0 <= i < j < |jobs| ==> jobs[i].order.id != jobs[j].order.id) ==>
      forall i :: 0 <= i < |jobs| && jobs[i].order.id == id ==> OwnOrder(jobs, id) == Some(jobs[i].order)
  {
    if jobs != [] {
      OwnOrderFacts(jobs[1..], id);
      assert forall i :: 1 <= i < |jobs| ==> jobs[i] == jobs[1..][i - 1];
      assert forall i :: 0 <= i < |jobs[1..]| ==> jobs[1..][i] == jobs[i + 1];
    }
  }

  lemma {:induction false} PendingNonNegative(jobs: seq<Job>, id: OrderId)
    requires forall i :: 0 <= i < |jobs| ==> PositiveTrades(jobs[i].trades)
    ensures PendingFilled(jobs, id) >= 0
    ensures (forall i :: 0 <= i < |jobs| ==> JobFilled(jobs[i], id) == 0) ==> PendingFilled(jobs, id) == 0
  {
    if jobs != [] {
      FilledByNonNegative(jobs[0].order.side, jobs[0].trades, id);
      PendingNonNegative(jobs[1..], id);
    }
  }

  lemma {:induction false} PendingConcat(a: seq<Job>, b: seq<Job>, id: OrderId)
    ensures PendingFilled(a + b, id) == PendingFilled(a, id) + PendingFilled(b, id)
  {
    if a == [] {
      assert a + b == b;
    } else {
      assert (a + b)[0] == a[0] && (a + b)[1..] == a[1..] + b;
      PendingConcat(a[1..], b, id);
    }
  }

  lemma StepFills(row: Order, job: Job, id: OrderId)
    requires PositiveTrades(job.trades)
    ensures job.order.id != id ==> StepRow(Some(row), job, id) == Some(FillBy(row, JobFilled(job, id)))
    ensures job.order.id == id && JobFilled(job, id) == 0 ==> StepRow(None, job, id) == Some(job.order)
  {
    FillOneForm(row, job.order.side, job.trades, id);
    FillOneForm(job.order, job.order.side, job.trades, id);
  }

  /** The row of an id once the jobs are persisted: the row, or the order of its own job, after all
      fills.  Their order does not matter. */
  lemma {:induction false} DrainedForm(row: Option<Order>, jobs: seq<Job>, id: OrderId)
    requires Ordered(jobs) && (row.Some? ==> OwnOrder(jobs, id).None?)
    ensures Drained(row, jobs, id) == FilledRow(Or(row, OwnOrder(jobs, id)), PendingFilled(jobs, id))
    decreases jobs
  {
    if jobs != [] {
      var job, more := jobs[0], jobs[1..];
      assert forall i :: 0 <= i < |more| ==> more[i] == jobs[i + 1];
      assert Ordered(more);
      OwnOrderFacts(more, id);
      PendingNonNegative(more, id);
      FilledByNonNegative(job.order.side, job.trades, id);
      if row.Some? {
        StepFills(row.value, job, id);
        FillTwice(row.value, JobFilled(job, id), PendingFilled(more, id));
      } else if job.order.id == id {
        StepFills(job.order, job, id);
      } else if OwnOrder(more, id).Some? {
        var i :| 0 <= i < |more| && more[i].order.id == id;
        assert JobFilled(jobs[0], jobs[i + 1].order.id) == 0;
      }
      DrainedForm(StepRow(row, job, id), more, id);
    }
  }
}
