/** The matching engine (crates/shared/src/engine.rs): the loop over the book slice, which it
    updates in place, and the function of the inputs that the loop is proved against.
    What that function achieves is stated in the *Laws.dfy files. */
module Engine {
  import opened Types

  datatype MatchResult = MatchResult(
    trades: seq<Trade>,
    bookUpdates: seq<Order>,
    incoming: Order,
    stpCancelled: seq<Order>)

  /** A match result together with the contents of the book slice afterwards. */
  datatype Outcome = Outcome(result: MatchResult, book: seq<Order>)

  /** Limit orders trade within their price; market orders match everything. */
  predicate PriceMatches(incoming: Order, resting: Order) {
    if incoming.orderType.Market? then true
    else
      match (incoming.side, incoming.price, resting.price)
      case (Buy, Some(bid), Some(ask)) => bid >= ask
      case (Sell, Some(ask), Some(bid)) => ask <= bid
      case _ => false
  }

  /** The quantity that the fill-or-kill check counts: every compatible order of the slice. */
  function Available(incoming: Order, book: seq<Order>): int {
    if book == [] then 0
    else
      (if PriceMatches(incoming, book[0]) then book[0].remaining else 0) + Available(incoming, book[1..])
  }

  predicate SelfTrade(incoming: Order, resting: Order) {
    incoming.user == resting.user && !incoming.stp.StpNone?
  }

  function FillStatus(remaining: int): OrderStatus {
    if remaining == 0 then Filled else PartiallyFilled
  }

  /** Trades execute at the resting price. */
  function FillPrice(incoming: Order, resting: Order): int {
    if resting.price.Some? then resting.price.value
    else if incoming.price.Some? then incoming.price.value
    else 0
  }

  function TradeOf(incoming: Order, resting: Order, quantity: int): Trade {
    if incoming.side.Buy?
    then Trade(incoming.pair, incoming.id, resting.id, incoming.user, resting.user,
               FillPrice(incoming, resting), quantity)
    else Trade(incoming.pair, resting.id, incoming.id, resting.user, incoming.user,
               FillPrice(incoming, resting), quantity)
  }

  /** An order after `quantity` of it has been filled. */
  function Reduce(order: Order, quantity: int): Order {
    order.(remaining := order.remaining - quantity, status := FillStatus(order.remaining - quantity))
  }

  function Cancel(order: Order): Order { order.(status := Cancelled) }

  /** Nothing left to fill, or no further order is compatible. */
  predicate Stops(incoming: Order, book: seq<Order>) {
    book == [] || incoming.remaining == 0 || !PriceMatches(incoming, book[0])
  }

  /** The head of the book is the last order that the walk looks at. */
  predicate Ends(incoming: Order, book: seq<Order>) {
    Stops(incoming, book) || (SelfTrade(incoming, book[0]) && !incoming.stp.CancelMaker?)
  }

  function Stay(incoming: Order, book: seq<Order>): Outcome {
    Outcome(MatchResult([], [], incoming, []), book)
  }

  /** How the walk ends: CancelTaker leaves the own resting order alone, CancelBoth cancels it. */
  function Last(incoming: Order, book: seq<Order>): Outcome
    requires Ends(incoming, book)
  {
    var taker := Cancel(incoming);
    if Stops(incoming, book) then Stay(incoming, book)
    else if incoming.stp.CancelTaker? then Outcome(MatchResult([], [], taker, [taker]), book)
    else
      var maker := Cancel(book[0]);
      Outcome(MatchResult([], [maker], taker, [taker, maker]), [maker] + book[1..])
  }

  function Fill(incoming: Order, resting: Order): int { Min(incoming.remaining, resting.remaining) }

  /** The incoming order after a visited order: CancelMaker skips its own orders. */
  function Next(incoming: Order, resting: Order): Order {
    if SelfTrade(incoming, resting) then incoming else Reduce(incoming, Fill(incoming, resting))
  }

  /** A visited order afterwards. */
  function Visited(incoming: Order, resting: Order): Order {
    if SelfTrade(incoming, resting) then Cancel(resting) else Reduce(resting, Fill(incoming, resting))
  }

  /** The records of one visited order in front of those of the rest of the book. */
  function Front(incoming: Order, resting: Order, rest: Outcome): Outcome {
    var skip, maker := SelfTrade(incoming, resting), Visited(incoming, resting);
    var trade := TradeOf(incoming, resting, Fill(incoming, resting));
    Outcome(MatchResult(if skip then rest.result.trades else [trade] + rest.result.trades,
                        [maker] + rest.result.bookUpdates,
                        rest.result.incoming,
                        if skip then [maker] + rest.result.stpCancelled else rest.result.stpCancelled),
            [maker] + rest.book)
  }

  /** The walk over the book in priority order. */
  function Walk(incoming: Order, book: seq<Order>): Outcome
    decreases book
  {
    if Ends(incoming, book) then Last(incoming, book)
    else Front(incoming, book[0], Walk(Next(incoming, book[0]), book[1..]))
  }

  /** Market orders never rest. */
  function EffectiveTif(order: Order): TimeInForce {
    if order.orderType.Market? then IOC else order.tif
  }

  /** The time-in-force rules, applied to the remainder. */
  function ApplyTif(tif: TimeInForce, result: MatchResult): MatchResult {
    if result.incoming.remaining > 0 && !result.incoming.status.Cancelled? then
      if tif.GTC? then
        if result.trades == [] then result.(incoming := result.incoming.(status := New)) else result
      else result.(incoming := Cancel(result.incoming))
    else result
  }

  /** The outcome of matching `order` against `book`. */
  function Match(order: Order, book: seq<Order>): Outcome {
    if order.tif.FOK? && Available(order, book) < order.remaining then Stay(Cancel(order), book)
    else
      var walk := Walk(order, book);
      walk.(result := ApplyTif(EffectiveTif(order), walk.result))
  }

  // ---- The loop --------------------------------------------------------------------------------

  /** The loop state: what is recorded so far, then the walk over what is left. */
  ghost predicate WalkSoFar(whole: Outcome, t: seq<Trade>, u: seq<Order>, c: seq<Order>, visited: seq<Order>,
      rest: Outcome) {
    whole == Outcome(MatchResult(t + rest.result.trades, u + rest.result.bookUpdates, rest.result.incoming,
                                 c + rest.result.stpCancelled),
                     visited + rest.book)
  }

  /** Visiting an order moves its records to those so far. */
  lemma VisitStep(whole: Outcome, t: seq<Trade>, u: seq<Order>, c: seq<Order>, visited: seq<Order>,
                  incoming: Order, resting: Order, rest: Outcome)
    requires WalkSoFar(whole, t, u, c, visited, Front(incoming, resting, rest))
    ensures var maker := Visited(incoming, resting);
      if SelfTrade(incoming, resting)
      then WalkSoFar(whole, t, u + [maker], c + [maker], visited + [maker], rest)
      else WalkSoFar(whole, t + [TradeOf(incoming, resting, Fill(incoming, resting))], u + [maker], c,
          visited + [maker], rest)
  {
  }

  /** The last order moves its records too, and the record is complete. */
  lemma LastStep(whole: Outcome, t: seq<Trade>, u: seq<Order>, c: seq<Order>, visited: seq<Order>,
                 incoming: Order, book: seq<Order>)
    requires Ends(incoming, book) && WalkSoFar(whole, t, u, c, visited, Last(incoming, book))
    ensures whole ==
      if Stops(incoming, book) then Outcome(MatchResult(t, u, incoming, c), visited + book)
      else if incoming.stp.CancelTaker? then
        Outcome(MatchResult(t, u, Cancel(incoming), c + [Cancel(incoming)]), visited + book)
      else
        var maker := Cancel(book[0]);
        Outcome(MatchResult(t, u + [maker], Cancel(incoming), c + [Cancel(incoming), maker]),
            visited + [maker] + book[1..])
  {
    if !Stops(incoming, book) && !incoming.stp.CancelTaker? {
      assert visited + ([Cancel(book[0])] + book[1..]) == visited + [Cancel(book[0])] + book[1..];
    }
  }

  lemma SetHead(visited: seq<Order>, rest: seq<Order>, order: Order)
    requires rest != []
    ensures (visited + rest)[|visited| := order] == visited + [order] + rest[1..]
  {
  }

  /** The loop of the engine.  It mutates the slice in place and records every change. */
  method MatchOrder(order: Order, book: array<Order>) returns (result: MatchResult)
    modifies book
    ensures Outcome(result, book[..]) == Match(order, old(book[..]))
  {
    var incoming := order;
    if incoming.tif.FOK? && Available(incoming, book[..]) < incoming.remaining {
      incoming := incoming.(status := Cancelled);
      return MatchResult([], [], incoming, []);
    }
    result := WalkBook(order, book);
    incoming := result.incoming;
    var effectiveTif := if order.orderType.Market? then IOC else order.tif;
    if incoming.remaining > 0 && !incoming.status.Cancelled? {
      match effectiveTif {
        case GTC =>
          if result.trades == [] {
            incoming := incoming.(status := New);
          }
        case _ =>
          incoming := incoming.(status := Cancelled);
      }
    }
    result := result.(incoming := incoming);
  }

  method WalkBook(order: Order, book: array<Order>) returns (result: MatchResult)
    modifies book
    ensures Outcome(result, book[..]) == Walk(order, old(book[..]))
  {
    ghost var whole, before, visited := Walk(order, book[..]), book[..], [];
    var incoming := order;
    var trades, bookUpdates, stpCancelled := [], [], [];
    var i := 0;
    while i < book.Length
      invariant 0 <= i == |visited| <= book.Length
      invariant book[..] == visited + before[i..]
      invariant WalkSoFar(whole, trades, bookUpdates, stpCancelled, visited, Walk(incoming, before[i..]))
    {
      ghost var rest := before[i..];
      var resting := book[i];
      assert rest[0] == resting && rest[1..] == before[i + 1..];
      if incoming.remaining == 0 || !PriceMatches(incoming, resting) {
        LastStep(whole, trades, bookUpdates, stpCancelled, visited, incoming, rest);
        return MatchResult(trades, bookUpdates, incoming, stpCancelled);
      }
      if incoming.user == resting.user && !incoming.stp.StpNone? {
        if incoming.stp.CancelTaker? {
          LastStep(whole, trades, bookUpdates, stpCancelled, visited, incoming, rest);
          incoming := incoming.(status := Cancelled);
          return MatchResult(trades, bookUpdates, incoming, stpCancelled + [incoming]);
        } else if incoming.stp.CancelBoth? {
          LastStep(whole, trades, bookUpdates, stpCancelled, visited, incoming, rest);
          incoming := incoming.(status := Cancelled);
          resting := resting.(status := Cancelled);
          SetHead(visited, rest, resting);
          book[i] := resting;
          return MatchResult(trades, bookUpdates + [resting], incoming, stpCancelled + [incoming, resting]);
        } else {
          VisitStep(whole, trades, bookUpdates, stpCancelled, visited, incoming, resting, Walk(incoming, rest[1..]));
          resting := resting.(status := Cancelled);
          stpCancelled := stpCancelled + [resting];
        }
      } else {
        VisitStep(whole, trades, bookUpdates, stpCancelled, visited, incoming, resting,
                  Walk(Next(incoming, resting), rest[1..]));
        var fillQty := Min(incoming.remaining, resting.remaining);
        trades := trades + [TradeOf(incoming, resting, fillQty)];
        incoming := Reduce(incoming, fillQty);
        resting := Reduce(resting, fillQty);
      }
      SetHead(visited, rest, resting);
      book[i] := resting;
      bookUpdates := bookUpdates + [resting];
      visited := visited + [resting];
      i := i + 1;
    }
    LastStep(whole, trades, bookUpdates, stpCancelled, visited, incoming, before[i..]);
    result := MatchResult(trades, bookUpdates, incoming, stpCancelled);
  }
}
