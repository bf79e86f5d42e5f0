/** Whole-run solvency: what is locked is exactly what the open orders, the stopped orders and the
    unpersisted matches need, plus the price improvement of past buys, which nothing releases.
    Hence no clamp ever fires and no unit is created or destroyed.
    (crates/api/src/routes.rs, crates/api/src/worker.rs, crates/gateway/src/worker.rs) */
module Solvency {
  import opened Types
  import opened Engine
  import opened MatchLaws
  import opened EquivalenceLaws
  import opened SortedBook
  import opened Ledger
  import opened LedgerLaws
  import opened Exchange

  // ---- Obligations -------------------------------------------------------------------------------

  /** What an open order needs locked at a row: price times remaining, or the remaining quantity. */
  function Obligation(order: Order, k: Key): int {
    if k == LockKey(order) then LockedFor(order, order.remaining) else 0
  }

  function Obligations(book: seq<Order>, k: Key): int {
    if book == [] then 0 else Obligation(book[0], k) + Obligations(book[1..], k)
  }

  /** A buyer locks at the limit and pays the resting price: the difference stays locked. */
  function Surplus(order: Order, trades: seq<Trade>, k: Key): int {
    if trades == [] then 0
    else
      (if order.side.Buy? && k == LockKey(order)
       then (order.PriceOrZero() - trades[0].price) * trades[0].quantity else 0)
      + Surplus(order, trades[1..], k)
  }

  function Surpluses(jobs: seq<Job>, k: Key): int {
    if jobs == [] then 0 else Surplus(jobs[0].order, jobs[0].trades, k) + Surpluses(jobs[1..], k)
  }

  /** What open orders, stopped orders and pending matches need locked in a row. */
  function Needed(s: State, k: Key): int {
    Obligations(s.books.bids, k) + Obligations(s.books.asks, k) + Obligations(s.stopped, k)
    + JobsDecrease(s.pending, k)
  }

  /** Everything that accounts for locked units. */
  function Accounts(s: State, k: Key): int { Needed(s, k) + Surpluses(s.history, k) }

  lemma {:induction false} SurplusIgnoresRemaining(order: Order, order': Order, trades: seq<Trade>, k: Key)
    requires order' == order.(remaining := order'.remaining, status := order'.status)
    ensures Surplus(order', trades, k) == Surplus(order, trades, k)
  {
    if trades != [] {
      SurplusIgnoresRemaining(order, order', trades[1..], k);
    }
  }

  // ---- One match, in balance ------------------------------------------------------------------------

  lemma ReduceObligation(order: Order, q: int, k: Key)
    ensures Obligation(order, k) - Obligation(Reduce(order, q), k)
         == if k == LockKey(order) then LockedFor(order, q) else 0
  {
    var p, r := order.PriceOrZero(), order.remaining;
    assert p * (r - q) == p * r - p * q;
  }

  /** One fill: what both orders give up is what the trade takes, plus the surplus. */
  lemma FillBalance(order: Order, maker: Order, q: int, k: Key)
    requires maker.price.Some? && maker.side == order.side.Opposite() && maker.pair == order.pair
    ensures var trade := TradeOf(order, maker, q);
      Obligation(order, k) - Obligation(Reduce(order, q), k) + Obligation(maker, k) - Obligation(Reduce(maker, q), k)
      == TradeDecrease(trade, k) + Surplus(order, [trade], k)
  {
    ReduceObligation(order, q, k);
    ReduceObligation(maker, q, k);
    var trade := TradeOf(order, maker, q);
    assert [trade][0] == trade && [trade][1..] == [];
    var l, p := order.PriceOrZero(), maker.price.value;
    assert (l - p) * q == l * q - p * q;
  }

  ghost predicate SamePair(order: Order, book: seq<Order>) {
    forall i :: 0 <= i < |book| ==> book[i].pair == order.pair
  }

  lemma {:induction false} LiveObligations(head: Order, rest: seq<Order>, k: Key)
    ensures Obligations(Live([head] + rest), k)
         == (if head.IsClosed() then 0 else Obligation(head, k)) + Obligations(Live(rest), k)
  {
    LiveHead(head, rest);
    assert ([head] + Live(rest))[1..] == Live(rest);
  }

  /** The whole walk in balance: what the incoming order and the book needed locked before is what
      they need afterwards, plus what the stopped orders need, plus what the trades take, plus the
      surplus. */
  ghost predicate InBalance(order: Order, book: seq<Order>, o: Outcome, stopped: seq<Order>, k: Key) {
    Obligation(order, k) + Obligations(book, k)
    == Obligation(o.result.incoming, k) + Obligations(Live(o.book), k) + Obligations(stopped, k)
       + Decrease(o.result.trades, k) + Surplus(order, o.result.trades, k)
  }

  lemma {:induction false} WalkBalance(order: Order, book: seq<Order>, k: Key)
    requires order.remaining >= 0 && ValidSide(order.side.Opposite(), book) && SamePair(order, book)
    ensures InBalance(order, book, Walk(order, book), WalkStopped(order, book), k)
    decreases book
  {
    var o := Walk(order, book);
    ValidFacts(order.side.Opposite(), book);
    if Ends(order, book) {
      if !Stops(order, book) && order.stp.CancelBoth? {
        LiveObligations(Cancel(book[0]), book[1..], k);
        LiveOfOpen(book[1..]);
        assert [book[0]][1..] == [];
      } else {
        LiveOfOpen(book);
      }
    } else {
      var next, tail := Next(order, book[0]), book[1..];
      var rest := Walk(next, tail);
      WalkBalance(next, tail, k);
      LiveObligations(Visited(order, book[0]), rest.book, k);
      if SelfTrade(order, book[0]) {
        assert ([book[0]] + WalkStopped(order, tail))[1..] == WalkStopped(order, tail);
      } else {
        FrontBalance(order, book[0], tail, rest, WalkStopped(next, tail), k);
      }
    }
  }

  /** A fill in front of a walk in balance. */
  lemma FrontBalance(order: Order, maker: Order, tail: seq<Order>, rest: Outcome, stopped: seq<Order>, k: Key)
    requires maker.price.Some? && maker.side == order.side.Opposite() && maker.pair == order.pair
    requires !SelfTrade(order, maker)
    requires InBalance(Next(order, maker), tail, rest, stopped, k)
    ensures InBalance(order, [maker] + tail, Front(order, maker, rest), stopped, k)
  {
    var q, o := Fill(order, maker), Front(order, maker, rest);
    var trade := TradeOf(order, maker, q);
    FillBalance(order, maker, q, k);
    LiveObligations(Reduce(maker, q), rest.book, k);
    SurplusIgnoresRemaining(order, Next(order, maker), rest.result.trades, k);
    assert o.result.trades[0] == trade && o.result.trades[1..] == rest.result.trades;
    assert ([maker] + tail)[1..] == tail;
    assert [trade][0] == trade && [trade][1..] == [];
  }

  /** A match in balance, whatever its type, time in force and self-trade-prevention mode. */
  lemma MatchBalance(order: Order, book: seq<Order>, k: Key)
    requires order.remaining >= 0 && ValidSide(order.side.Opposite(), book) && SamePair(order, book)
    ensures InBalance(order, book, Match(order, book), StoppedBy(order, book), k)
  {
    if FokRejects(order, book) {
      ValidFacts(order.side.Opposite(), book);
      LiveOfOpen(book);
    } else {
      WalkBalance(order, book, k);
    }
  }
}
