/** What one match achieves, under every self-trade-prevention mode: conservation, the trades as
    fills of distinct resting orders, the filled quantity and the final status in closed form, and
    exactly when fill-or-kill is all or nothing.  (crates/shared/src/engine.rs) */
module MatchLaws {
  import opened Types
  import opened Engine

  // ---- Vocabulary -------------------------------------------------------------------------

  function TotalRemaining(book: seq<Order>): int {
    if book == [] then 0 else book[0].remaining + TotalRemaining(book[1..])
  }

  function TotalTraded(trades: seq<Trade>): int {
    if trades == [] then 0 else trades[0].quantity + TotalTraded(trades[1..])
  }

  ghost predicate NonNegative(book: seq<Order>) {
    forall i :: 0 <= i < |book| ==> book[i].remaining >= 0
  }

  ghost predicate Positive(book: seq<Order>) {
    forall i :: 0 <= i < |book| ==> book[i].remaining > 0
  }

  /** The slice is in price priority for `order`: once an order is incompatible, so is the rest. */
  ghost predicate Prioritised(order: Order, book: seq<Order>) {
    forall i, j :: 0 <= i < j < |book| && PriceMatches(order, book[j]) ==> PriceMatches(order, book[i])
  }

  /** Only the remaining quantity, downwards, and the status of an order may have changed. */
  predicate OnlyFilled(before: Order, after: Order) {
    && after == before.(remaining := after.remaining, status := after.status)
    && 0 <= after.remaining <= before.remaining
  }

  /** What `order` could trade with the book if its own quantity were unlimited. */
  function Reachable(order: Order, book: seq<Order>): int {
    if book == [] || !PriceMatches(order, book[0]) then 0
    else if SelfTrade(order, book[0]) then
      if order.stp.CancelMaker? then Reachable(order, book[1..]) else 0
    else book[0].remaining + Reachable(order, book[1..])
  }

  /** An order of the same user that self-trade prevention applies to is within reach. */
  predicate MeetsOwn(order: Order, book: seq<Order>) {
    && book != []
    && PriceMatches(order, book[0])
    && (SelfTrade(order, book[0]) || MeetsOwn(order, book[1..]))
  }

  /** One trade for each order of the slice that lost quantity, in slice order, at its price. */
  function FillsOf(order: Order, book: seq<Order>, after: seq<Order>): seq<Trade>
    requires |book| == |after|
  {
    if book == [] then []
    else
      var lost := book[0].remaining - after[0].remaining;
      var rest := FillsOf(order, book[1..], after[1..]);
      if lost > 0 then [TradeOf(order, book[0], lost)] + rest else rest
  }

  lemma {:induction false} TradedConcat(a: seq<Trade>, b: seq<Trade>)
    ensures TotalTraded(a + b) == TotalTraded(a) + TotalTraded(b)
  {
    if a == [] {
      assert a + b == b;
    } else {
      assert (a + b)[0] == a[0] && (a + b)[1..] == a[1..] + b;
      TradedConcat(a[1..], b);
    }
  }

  lemma {:induction false} RemainingConcat(a: seq<Order>, b: seq<Order>)
    ensures TotalRemaining(a + b) == TotalRemaining(a) + TotalRemaining(b)
  {
    if a == [] {
      assert a + b == b;
    } else {
      assert (a + b)[0] == a[0] && (a + b)[1..] == a[1..] + b;
      RemainingConcat(a[1..], b);
    }
  }

  /** Of the incoming order too, only the remaining quantity and the status change. */
  lemma MatchKeepsOrder(order: Order, book: seq<Order>)
    ensures var last := Match(order, book).result.incoming;
      last == order.(remaining := last.remaining, status := last.status)
  {
    WalkKeepsOrder(order, book);
  }

  lemma {:induction false} WalkKeepsOrder(order: Order, book: seq<Order>)
    ensures var last := Walk(order, book).result.incoming;
      last == order.(remaining := last.remaining, status := last.status)
    decreases book
  {
    if !Ends(order, book) {
      WalkKeepsOrder(Next(order, book[0]), book[1..]);
    }
  }

  // ---- Conservation -----------------------------------------------------------------------

  lemma {:induction false} WalkConserves(order: Order, book: seq<Order>)
    requires order.remaining >= 0 && NonNegative(book)
    ensures var o := Walk(order, book);
      && TotalTraded(o.result.trades) == order.remaining - o.result.incoming.remaining
      && TotalTraded(o.result.trades) == TotalRemaining(book) - TotalRemaining(o.book)
      && o.result.incoming == order.(remaining := o.result.incoming.remaining, status := o.result.incoming.status)
      && 0 <= o.result.incoming.remaining
      && |o.book| == |book|
      && forall i :: 0 <= i < |book| ==> OnlyFilled(book[i], o.book[i])
    decreases book
  {
    if !Stops(order, book) {
      var o := Walk(order, book);
      if SelfTrade(order, book[0]) && !order.stp.CancelMaker? {
        assert o.book[1..] == book[1..];
      } else {
        WalkConserves(Next(order, book[0]), book[1..]);
      }
    }
  }

  /** Matching moves quantity and creates none: what the trades say, what the incoming order lost
      and what the resting orders lost agree, and nothing but remaining and status changes. */
  lemma Conservation(order: Order, book: seq<Order>)
    requires order.remaining >= 0 && NonNegative(book)
    ensures var o := Match(order, book);
      && TotalTraded(o.result.trades) == order.remaining - o.result.incoming.remaining
      && TotalTraded(o.result.trades) == TotalRemaining(book) - TotalRemaining(o.book)
      && OnlyFilled(order, o.result.incoming)
      && |o.book| == |book|
      && forall i :: 0 <= i < |book| ==> OnlyFilled(book[i], o.book[i])
  {
    WalkConserves(order, book);
    TotalTradedNonNegative(order, book);
  }

  lemma {:induction false} TotalTradedNonNegative(order: Order, book: seq<Order>)
    requires order.remaining >= 0 && NonNegative(book)
    ensures TotalTraded(Walk(order, book).result.trades) >= 0
  {
    WalkConserves(order, book);
    var o := Walk(order, book);
    OnlyFilledTotal(book, o.book);
  }

  lemma {:induction false} OnlyFilledTotal(before: seq<Order>, after: seq<Order>)
    requires |before| == |after| && forall i :: 0 <= i < |before| ==> OnlyFilled(before[i], after[i])
    ensures 0 <= TotalRemaining(after) <= TotalRemaining(before)
  {
    if before != [] {
      assert OnlyFilled(before[0], after[0]);
      OnlyFilledTotal(before[1..], after[1..]);
    }
  }

  // ---- Trades are fills of distinct resting orders, in priority order ------------------------

  lemma {:induction false} FillsIgnoreRemaining(order: Order, order': Order, book: seq<Order>, after: seq<Order>)
    requires |book| == |after|
    requires order' == order.(remaining := order'.remaining, status := order'.status)
    ensures FillsOf(order', book, after) == FillsOf(order, book, after)
  {
    if book != [] {
      FillsIgnoreRemaining(order, order', book[1..], after[1..]);
    }
  }

  lemma {:induction false} NoChangeNoFills(order: Order, book: seq<Order>)
    ensures FillsOf(order, book, book) == []
  {
    if book != [] {
      NoChangeNoFills(order, book[1..]);
    }
  }

  lemma {:induction false} WalkTradesAreFills(order: Order, book: seq<Order>)
    requires order.remaining >= 0 && Positive(book)
    ensures var o := Walk(order, book);
      && |o.book| == |book|
      && o.result.trades == FillsOf(order, book, o.book)
      && (forall i :: 0 <= i < |book| && o.book[i].remaining != book[i].remaining ==>
            PriceMatches(order, book[i]) && !SelfTrade(order, book[i]))
    decreases book
  {
    var o := Walk(order, book);
    if Stops(order, book) {
      NoChangeNoFills(order, book);
    } else if SelfTrade(order, book[0]) && !order.stp.CancelMaker? {
      assert o.book[1..] == book[1..];
      NoChangeNoFills(order, book[1..]);
    } else {
      var next := Next(order, book[0]);
      WalkTradesAreFills(next, book[1..]);
      FillsIgnoreRemaining(order, next, book[1..], o.book[1..]);
      forall i | 0 <= i < |book| && o.book[i].remaining != book[i].remaining
        ensures PriceMatches(order, book[i]) && !SelfTrade(order, book[i])
      {
        if i > 0 {
          assert book[i] == book[1..][i - 1] && o.book[i] == o.book[1..][i - 1];
        }
      }
    }
  }

  /** The trades are exactly the losses of the resting orders: one for each order that lost
      quantity, in slice order, at that order's price; and only orders within the taker's limit
      that self-trade prevention does not protect lose any. */
  lemma TradesAreFills(order: Order, book: seq<Order>)
    requires order.remaining >= 0 && Positive(book)
    ensures var o := Match(order, book);
      && |o.book| == |book|
      && o.result.trades == FillsOf(order, book, o.book)
      && (forall i :: 0 <= i < |book| && o.book[i].remaining != book[i].remaining ==>
            PriceMatches(order, book[i]) && !SelfTrade(order, book[i]))
  {
    WalkTradesAreFills(order, book);
    NoChangeNoFills(order, book);
  }

  // ---- The filled quantity and the final status in closed form -----------------------------

  lemma {:induction false} ReachableNonNegative(order: Order, book: seq<Order>)
    requires NonNegative(book)
    ensures Reachable(order, book) >= 0
  {
    if book != [] {
      ReachableNonNegative(order, book[1..]);
    }
  }

  lemma {:induction false} ReachableIgnoresRemaining(order: Order, order': Order, book: seq<Order>)
    requires order' == order.(remaining := order'.remaining, status := order'.status)
    ensures Reachable(order', book) == Reachable(order, book)
    ensures MeetsOwn(order', book) == MeetsOwn(order, book)
  {
    if book != [] {
      ReachableIgnoresRemaining(order, order', book[1..]);
    }
  }

  lemma {:induction false} WalkFills(order: Order, book: seq<Order>)
    requires order.remaining >= 0 && NonNegative(book)
    requires !order.status.Cancelled?
    ensures var o := Walk(order, book);
      && o.result.incoming.remaining == order.remaining - Min(order.remaining, Reachable(order, book))
      && (o.result.incoming.status.Cancelled? <==>
            !order.stp.CancelMaker? && MeetsOwn(order, book) && order.remaining > Reachable(order, book))
      && (!o.result.incoming.status.Cancelled? ==>
            o.result.incoming.status == if o.result.trades == [] then order.status
                else FillStatus(o.result.incoming.remaining))
    decreases book
  {
    ReachableNonNegative(order, book);
    if !Stops(order, book) {
      ReachableNonNegative(order, book[1..]);
      if SelfTrade(order, book[0]) && !order.stp.CancelMaker? {
      } else {
        WalkFills(Next(order, book[0]), book[1..]);
        WalkConserves(Next(order, book[0]), book[1..]);
        ReachableIgnoresRemaining(order, Next(order, book[0]), book[1..]);
      }
    }
  }

  lemma {:induction false} TradesIffFilled(order: Order, book: seq<Order>)
    requires order.remaining > 0 && Positive(book)
    ensures Walk(order, book).result.trades == [] <==> Reachable(order, book) == 0
    ensures Walk(order, book).result.bookUpdates == [] <==>
      Reachable(order, book) == 0 && (MeetsOwn(order, book) ==> order.stp.CancelTaker?)
    decreases book
  {
    ReachableNonNegative(order, book);
    if book != [] && PriceMatches(order, book[0]) {
      ReachableNonNegative(order, book[1..]);
      if SelfTrade(order, book[0]) ==> order.stp.CancelMaker? {
      }
      if SelfTrade(order, book[0]) && order.stp.CancelMaker? {
        TradesIffFilled(order, book[1..]);
      }
    }
  }

  /** The fill-or-kill check turns the order away. */
  predicate FokRejects(order: Order, book: seq<Order>) {
    order.tif.FOK? && Available(order, book) < order.remaining
  }

  function FilledQuantity(order: Order, book: seq<Order>): int {
    if FokRejects(order, book) then 0 else Min(order.remaining, Reachable(order, book))
  }

  /** The status of the incoming order after the match, from the inputs alone. */
  function FinalStatus(order: Order, book: seq<Order>): OrderStatus {
    if FokRejects(order, book) then Cancelled
    else if Reachable(order, book) >= order.remaining then Filled
    else if !EffectiveTif(order).GTC? || (!order.stp.CancelMaker? && MeetsOwn(order, book)) then Cancelled
    else if Reachable(order, book) > 0 then PartiallyFilled
    else New
  }

  /** A new order fills as much as it can reach, and its final status follows from its
      quantity, its time in force and its self-trade-prevention mode. */
  lemma FillAndStatus(order: Order, book: seq<Order>)
    requires order.remaining > 0 && order.status.New? && Positive(book)
    ensures var o := Match(order, book);
      && TotalTraded(o.result.trades) == FilledQuantity(order, book)
      && o.result.incoming == order.(remaining := order.remaining - FilledQuantity(order, book),
                                     status := FinalStatus(order, book))
  {
    if !FokRejects(order, book) {
      WalkConserves(order, book);
      WalkFills(order, book);
      TradesIffFilled(order, book);
      ReachableNonNegative(order, book);
    }
  }

  // ---- Fill or kill --------------------------------------------------------------------------

  /** Filled entirely, or no trace left: no trade, no update, the slice as it was. */
  predicate AllOrNothing(book: seq<Order>, o: Outcome) {
    || (o.result.incoming.status.Filled? && o.result.incoming.remaining == 0)
    || (o.result.incoming.status.Cancelled? && o.result.trades == [] && o.result.bookUpdates == [] && o.book == book)
  }

  /** The resting orders within the taker's price, its own included. */
  function Within(order: Order, book: seq<Order>): seq<Order> {
    if book == [] then []
    else if order.orderType.Market? || (book[0].price.Some? && order.price.Some? &&
      (if order.side.Buy? then book[0].price.value <= order.price.value
       else book[0].price.value >= order.price.value))
    then [book[0]] + Within(order, book[1..])
    else Within(order, book[1..])
  }

  /** The fill-or-kill check counts everything within the price, own orders too. */
  lemma {:induction false} AvailableIsWithin(order: Order, book: seq<Order>)
    ensures Available(order, book) == TotalRemaining(Within(order, book))
  {
    if book != [] {
      AvailableIsWithin(order, book[1..]);
      assert ([book[0]] + Within(order, book[1..]))[1..] == Within(order, book[1..]);
    }
  }

  /** A fill-or-kill order is turned away, without a trace, if and only if less than its quantity rests
      within its price. */
  lemma TurnedAwayExactly(order: Order, book: seq<Order>)
    requires order.tif.FOK? && NonNegative(book) && order.remaining > 0
    ensures TotalRemaining(Within(order, book)) < order.remaining <==> FokRejects(order, book)
    ensures FokRejects(order, book) ==>
      Match(order, book) == Outcome(MatchResult([], [], order.(status := Cancelled), []), book)
  {
    AvailableIsWithin(order, book);
  }

  lemma {:induction false} AvailableIsReachable(order: Order, book: seq<Order>)
    requires Prioritised(order, book)
    requires !MeetsOwn(order, book)
    ensures Available(order, book) == Reachable(order, book)
  {
    if book != [] {
      if PriceMatches(order, book[0]) {
        AvailableIsReachable(order, book[1..]);
      } else {
        assert forall i :: 0 <= i < |book| ==> !PriceMatches(order, book[i]);
        NoneAvailable(order, book);
      }
    }
  }

  lemma {:induction false} NoneAvailable(order: Order, book: seq<Order>)
    requires forall i :: 0 <= i < |book| ==> !PriceMatches(order, book[i])
    ensures Available(order, book) == 0
  {
    if book != [] {
      NoneAvailable(order, book[1..]);
    }
  }

  lemma {:induction false} NoUpdatesNoChange(order: Order, book: seq<Order>)
    requires Walk(order, book).result.bookUpdates == []
    ensures Walk(order, book).book == book
  {
  }

  /** The fill-or-kill check counts the user's own orders, which the walk may not use.  A
      fill-or-kill order is all or nothing exactly if it is turned away, or enough is reachable, or
      CancelTaker stops it before its first fill. */
  lemma FillOrKillExactly(order: Order, book: seq<Order>)
    requires order.tif.FOK? && order.remaining > 0 && order.status.New?
    requires Positive(book) && Prioritised(order, book)
    ensures AllOrNothing(book, Match(order, book)) <==>
      || Available(order, book) < order.remaining
      || Reachable(order, book) >= order.remaining
      || (Reachable(order, book) == 0 && order.stp.CancelTaker?)
  {
    FillAndStatus(order, book);
    if !FokRejects(order, book) {
      TradesIffFilled(order, book);
      ReachableNonNegative(order, book);
      if !MeetsOwn(order, book) {
        AvailableIsReachable(order, book);
      }
      if Walk(order, book).result.bookUpdates == [] {
        NoUpdatesNoChange(order, book);
      }
    }
  }

  /** In particular: without an own order in reach, fill-or-kill keeps its promise. */
  lemma FillOrKill(order: Order, book: seq<Order>)
    requires order.tif.FOK? && order.remaining > 0 && order.status.New?
    requires Positive(book) && Prioritised(order, book)
    requires !MeetsOwn(order, book)
    ensures AllOrNothing(book, Match(order, book))
    ensures Match(order, book).result.incoming.status.Filled? <==> Available(order, book) >= order.remaining
  {
    FillOrKillExactly(order, book);
    AvailableIsReachable(order, book);
    FillAndStatus(order, book);
  }

  /** An input on which it is not: CancelMaker with half of the liquidity the user's own. */
  lemma FillOrKillFailure() returns (order: Order, book: seq<Order>)
    ensures order.tif.FOK? && order.remaining > 0 && order.status.New?
    ensures Positive(book) && Prioritised(order, book)
    ensures !AllOrNothing(book, Match(order, book))
  {
    var pair := Pair(1, 0);
    order := Order(3, 7, pair, Buy, Limit, FOK, Some(100), 2, 2, New, CancelMaker);
    book := [Order(1, 7, pair, Sell, Limit, GTC, Some(100), 1, 1, New, StpNone),
             Order(2, 8, pair, Sell, Limit, GTC, Some(100), 1, 1, New, StpNone)];
    var tail := [book[1]];
    assert book[1..] == tail && tail[1..] == [];
    assert Available(order, []) == 0 && Reachable(order, []) == 0;
    assert PriceMatches(order, tail[0]) && !SelfTrade(order, tail[0]);
    assert Available(order, tail) == 1 + Available(order, []);
    assert Reachable(order, tail) == 1 + Reachable(order, []);
    assert PriceMatches(order, book[0]) && SelfTrade(order, book[0]);
    assert Available(order, book) == 1 + Available(order, tail);
    assert Reachable(order, book) == Reachable(order, tail);
    FillOrKillExactly(order, book);
  }
}
