/** Matches that amount to the same: splitting an order in two, CancelMaker against a book without
    the taker's own orders, CancelTaker and CancelBoth against the book cut at the first own order.
    (crates/shared/src/engine.rs) */
module EquivalenceLaws {
  import opened Types
  import opened Engine
  import opened MatchLaws
  import opened PriorityLaws

  // ---- Splitting an order --------------------------------------------------------------------

  /** The orders that stay in the book. */
  function Live(book: seq<Order>): seq<Order> {
    if book == [] then []
    else if book[0].IsClosed() then Live(book[1..])
    else [book[0]] + Live(book[1..])
  }

  ghost predicate AllOpen(book: seq<Order>) {
    forall i :: 0 <= i < |book| ==> book[i].IsOpen() && book[i].remaining > 0
  }

  function Sized(order: Order, quantity: int): Order {
    order.(remaining := quantity)
  }

  lemma {:induction false} LiveOfOpen(book: seq<Order>)
    requires AllOpen(book)
    ensures Live(book) == book
  {
    if book != [] {
      LiveOfOpen(book[1..]);
    }
  }

  /** The book after an order without self-trade prevention has `left` to fill. */
  function Serve(order: Order, book: seq<Order>, left: int): seq<Order>
    decreases book
  {
    if book == [] || left == 0 || !PriceMatches(order, book[0]) then book
    else
      var q := Min(left, book[0].remaining);
      [Reduce(book[0], q)] + Serve(order, book[1..], left - q)
  }

  /** The quantity and the money that this moves. */
  function Served(order: Order, book: seq<Order>, left: int): (int, int)
    decreases book
  {
    if book == [] || left == 0 || !PriceMatches(order, book[0]) then (0, 0)
    else
      var q := Min(left, book[0].remaining);
      var rest := Served(order, book[1..], left - q);
      (q + rest.0, FillPrice(order, book[0]) * q + rest.1)
  }

  lemma {:induction false} WalkServes(base: Order, order: Order, book: seq<Order>)
    requires order.stp.StpNone? && order == base.(remaining := order.remaining, status := order.status)
    ensures var o, served := Walk(order, book), Served(base, book, order.remaining);
      && o.book == Serve(base, book, order.remaining)
      && o.result.incoming.remaining == order.remaining - served.0
      && TradeValue(o.result.trades) == served.1
    decreases book
  {
    if !Ends(order, book) {
      WalkServes(base, Next(order, book[0]), book[1..]);
    }
  }

  lemma ServeHead(order: Order, head: Order, tail: seq<Order>, left: int)
    requires left > 0 && PriceMatches(order, head)
    ensures var q := Min(left, head.remaining);
      && Serve(order, [head] + tail, left) == [Reduce(head, q)] + Serve(order, tail, left - q)
      && Served(order, [head] + tail, left).0 == q + Served(order, tail, left - q).0
      && Served(order, [head] + tail, left).1 == FillPrice(order, head) * q + Served(order, tail, left - q).1
  {
    assert ([head] + tail)[1..] == tail;
  }

  lemma LiveHead(head: Order, tail: seq<Order>)
    ensures Live([head] + tail) == if head.IsClosed() then Live(tail) else [head] + Live(tail)
  {
    assert ([head] + tail)[1..] == tail;
  }

  /** Serve `q1`, drop what closed, serve `q2`: the same as serving `q1 + q2`. */
  ghost predicate Splits(order: Order, q1: int, q2: int, book: seq<Order>) {
    var first := Live(Serve(order, book, q1));
    && Live(Serve(order, first, q2)) == Live(Serve(order, book, q1 + q2))
    && Served(order, book, q1).0 + Served(order, first, q2).0 == Served(order, book, q1 + q2).0
    && Served(order, book, q1).1 + Served(order, first, q2).1 == Served(order, book, q1 + q2).1
  }

  lemma {:induction false} ServeSplit(order: Order, q1: int, q2: int, book: seq<Order>)
    requires q1 >= 0 && q2 >= 0 && AllOpen(book)
    ensures Splits(order, q1, q2, book)
    decreases book
  {
    if book == [] || q1 == 0 || !PriceMatches(order, book[0]) {
      LiveOfOpen(book);
    } else {
      var head, tail := book[0], book[1..];
      assert book == [head] + tail && AllOpen(tail);
      if q1 < head.remaining {
        SplitPartialHead(order, q1, q2, head, tail);
      } else {
        ServeSplit(order, q1 - head.remaining, q2, tail);
        SplitFullHead(order, q1, q2, head, tail);
      }
    }
  }

  lemma SplitFullHead(order: Order, q1: int, q2: int, head: Order, tail: seq<Order>)
    requires 0 < head.remaining <= q1 && q2 >= 0 && PriceMatches(order, head)
    requires Splits(order, q1 - head.remaining, q2, tail)
    ensures Splits(order, q1, q2, [head] + tail)
  {
    var r := head.remaining;
    ServeHead(order, head, tail, q1);
    ServeHead(order, head, tail, q1 + q2);
    LiveHead(Reduce(head, r), Serve(order, tail, q1 - r));
    LiveHead(Reduce(head, r), Serve(order, tail, q1 + q2 - r));
  }

  lemma SplitPartialHead(order: Order, q1: int, q2: int, head: Order, tail: seq<Order>)
    requires 0 < q1 < head.remaining && q2 >= 0 && AllOpen(tail) && PriceMatches(order, head)
    ensures Splits(order, q1, q2, [head] + tail)
  {
    var head' := Reduce(head, q1);
    PartialHead(order, q1, head, tail);
    if q2 == 0 {
      LiveOfOpen(tail);
      LiveHead(head', tail);
      assert Serve(order, [head'] + tail, 0) == [head'] + tail;
    } else {
      HeadTwice(order, q1, q2, head, tail);
    }
  }

  lemma PartialHead(order: Order, q1: int, head: Order, tail: seq<Order>)
    requires 0 < q1 < head.remaining && AllOpen(tail) && PriceMatches(order, head)
    ensures Serve(order, [head] + tail, q1) == Live(Serve(order, [head] + tail, q1)) == [Reduce(head, q1)] + tail
    ensures Served(order, [head] + tail, q1) == (q1, FillPrice(order, head) * q1)
  {
    ServeHead(order, head, tail, q1);
    assert Serve(order, tail, 0) == tail;
    LiveOfOpen(tail);
    LiveHead(Reduce(head, q1), tail);
  }

  /** The head is served `q1`, and then on its own what it has left: as much as at once. */
  lemma HeadTwice(order: Order, q1: int, q2: int, head: Order, tail: seq<Order>)
    requires 0 < q1 < head.remaining && q2 > 0 && PriceMatches(order, head)
    ensures var rest := [Reduce(head, q1)] + tail;
      && Serve(order, rest, q2) == Serve(order, [head] + tail, q1 + q2)
      && q1 + Served(order, rest, q2).0 == Served(order, [head] + tail, q1 + q2).0
      && FillPrice(order, head) * q1 + Served(order, rest, q2).1 == Served(order, [head] + tail, q1 + q2).1
  {
    var head', q := Reduce(head, q1), Min(q2, head.remaining - q1);
    ServeHead(order, head', tail, q2);
    ServeHead(order, head, tail, q1 + q2);
    ReduceTwice(head, q1, q);
    Distribute(FillPrice(order, head), q1, q);
  }

  lemma ReduceTwice(head: Order, q1: int, q: int)
    ensures Reduce(Reduce(head, q1), q) == Reduce(head, q1 + q)
  {
  }

  lemma Distribute(p: int, a: int, b: int)
    ensures p * (a + b) == p * a + p * b
  {
  }

  /** Two matches, the second on what the first left, come to the same as one. */
  ghost predicate Together(first: Outcome, second: Outcome, whole: Outcome) {
    && Live(second.book) == Live(whole.book)
    && first.result.incoming.remaining + second.result.incoming.remaining == whole.result.incoming.remaining
    && TotalTraded(first.result.trades) + TotalTraded(second.result.trades) == TotalTraded(whole.result.trades)
    && TradeValue(first.result.trades) + TradeValue(second.result.trades) == TradeValue(whole.result.trades)
  }

  /** Splitting a resting limit order changes nothing: matching q1 and then q2 on what is left of
      the book leaves the same book as matching q1 + q2, fills the same quantity and moves the same
      money. */
  lemma SplitOrder(order: Order, q1: int, q2: int, book: seq<Order>, first: Outcome, second: Outcome, whole: Outcome)
    requires order.orderType.Limit? && order.tif.GTC? && order.stp.StpNone?
    requires q1 > 0 && q2 > 0 && AllOpen(book)
    requires first == Match(Sized(order, q1), book)
    requires second == Match(Sized(order, q2), Live(first.book))
    requires whole == Match(Sized(order, q1 + q2), book)
    ensures Together(first, second, whole)
  {
    assert Serves(order, q1, book, first) && NonNegative(Live(first.book)) by {
      MatchServes(order, q1, book, first);
      LiveServeNonNegative(order, book, q1);
    }
    assert Serves(order, q2, Live(first.book), second) by {
      MatchServes(order, q2, Live(first.book), second);
    }
    assert Serves(order, q1 + q2, book, whole) by {
      MatchServes(order, q1 + q2, book, whole);
    }
    SplitTotals(order, q1, q2, book, first, second, whole);
  }

  lemma SplitTotals(order: Order, q1: int, q2: int, book: seq<Order>, first: Outcome, second: Outcome, whole: Outcome)
    requires q1 > 0 && q2 > 0 && AllOpen(book)
    requires Serves(order, q1, book, first) && Serves(order, q2, Live(first.book), second)
    requires Serves(order, q1 + q2, book, whole)
    ensures Together(first, second, whole)
  {
    ServeSplit(order, q1, q2, book);
  }

  /** The outcome of a match is serving `q` of the book. */
  ghost predicate Serves(order: Order, q: int, book: seq<Order>, o: Outcome) {
    var served := Served(order, book, q);
    && o.book == Serve(order, book, q)
    && o.result.incoming.remaining == q - served.0
    && TotalTraded(o.result.trades) == served.0
    && TradeValue(o.result.trades) == served.1
  }

  lemma MatchServes(order: Order, q: int, book: seq<Order>, o: Outcome)
    requires order.orderType.Limit? && order.tif.GTC? && order.stp.StpNone? && q >= 0 && NonNegative(book)
    requires o == Match(Sized(order, q), book)
    ensures Serves(order, q, book, o)
  {
    WalkServes(order, Sized(order, q), book);
    Conservation(Sized(order, q), book);
  }

  lemma {:induction false} LiveServeNonNegative(order: Order, book: seq<Order>, left: int)
    requires left >= 0 && NonNegative(book)
    ensures NonNegative(Live(Serve(order, book, left)))
    decreases book
  {
    if book == [] || left == 0 || !PriceMatches(order, book[0]) {
      LiveNonNegative(book);
    } else {
      var q := Min(left, book[0].remaining);
      LiveServeNonNegative(order, book[1..], left - q);
      LiveHead(Reduce(book[0], q), Serve(order, book[1..], left - q));
    }
  }

  lemma {:induction false} LiveNonNegative(book: seq<Order>)
    requires NonNegative(book)
    ensures NonNegative(Live(book))
  {
    if book != [] {
      LiveNonNegative(book[1..]);
    }
  }

  // ---- CancelMaker -----------------------------------------------------------------------------

  function WithoutUser(book: seq<Order>, user: UserId): seq<Order> {
    if book == [] then []
    else if book[0].user == user then WithoutUser(book[1..], user)
    else [book[0]] + WithoutUser(book[1..], user)
  }

  function OfUser(book: seq<Order>, user: UserId): seq<Order> {
    if book == [] then []
    else if book[0].user == user then [book[0]] + OfUser(book[1..], user)
    else OfUser(book[1..], user)
  }

  lemma {:induction false} WithoutUserIncompatible(order: Order, book: seq<Order>)
    requires forall i :: 0 <= i < |book| ==> !PriceMatches(order, book[i])
    ensures var others := WithoutUser(book, order.user); others == [] || !PriceMatches(order, others[0])
  {
    if book != [] {
      WithoutUserIncompatible(order, book[1..]);
    }
  }

  /** `o` is `other` with the taker's own orders put back, some of them cancelled. */
  ghost predicate SkipsOwn(user: UserId, o: Outcome, other: Outcome) {
    && o.result.trades == other.result.trades
    && o.result.incoming == other.result.incoming.(stp := CancelMaker)
    && WithoutUser(o.book, user) == other.book
    && o.result.stpCancelled == OfUser(o.result.bookUpdates, user)
  }

  lemma SkipsOwnFront(order: Order, resting: Order, rest: Outcome, other: Outcome)
    requires order.stp.CancelMaker? && SkipsOwn(order.user, rest, other)
    ensures resting.user == order.user ==> SkipsOwn(order.user, Front(order, resting, rest), other)
    ensures resting.user != order.user ==>
      SkipsOwn(order.user, Front(order, resting, rest), Front(order.(stp := StpNone), resting, other))
  {
    var o := Front(order, resting, rest);
    assert o.book[1..] == rest.book && o.result.bookUpdates[1..] == rest.result.bookUpdates;
  }

  lemma {:induction false} WalkCancelMaker(order: Order, book: seq<Order>)
    requires order.stp.CancelMaker? && Prioritised(order, book)
    ensures SkipsOwn(order.user, Walk(order, book), Walk(order.(stp := StpNone), WithoutUser(book, order.user)))
    decreases book
  {
    var free := order.(stp := StpNone);
    if Stops(order, book) {
      if book != [] && order.remaining != 0 {
        WithoutUserIncompatible(free, book);
      }
    } else {
      var next, tail := Next(order, book[0]), book[1..];
      var others := WithoutUser(tail, order.user);
      WalkCancelMaker(next, tail);
      SkipsOwnFront(order, book[0], Walk(next, tail), Walk(next.(stp := StpNone), others));
      if book[0].user != order.user {
        assert next.(stp := StpNone) == Next(free, book[0]);
        assert ([book[0]] + others)[1..] == others;
      }
    }
  }

  /** CancelMaker matches as if the taker's own orders were not in the book, and cancels exactly
      those of them that the walk reaches while quantity remains. */
  lemma CancelMakerEquivalence(order: Order, book: seq<Order>)
    requires order.stp.CancelMaker? && !order.tif.FOK? && Prioritised(order, book)
    requires order.remaining >= 0 && NonNegative(book)
    ensures var o := Match(order, book);
      var other := Match(order.(stp := StpNone), WithoutUser(book, order.user));
      && o.result.trades == other.result.trades
      && o.result.incoming == other.result.incoming.(stp := CancelMaker)
      && WithoutUser(o.book, order.user) == other.book
      && o.result.stpCancelled == OfUser(o.result.bookUpdates, order.user)
      && |o.book| == |book|
      && (forall i :: 0 <= i < |book| && book[i].user == order.user ==>
            o.book[i] ==
              if PriceMatches(order, book[i]) && order.remaining > TotalRemaining(WithoutUser(book[..i], order.user))
                         then Cancel(book[i]) else book[i])
  {
    WalkCancelMaker(order, book);
    PriorityFill(order, book);
    forall i | 0 <= i < |book| ensures Ahead(order, book[..i]) == TotalRemaining(WithoutUser(book[..i], order.user)) {
      AheadIsOthers(order, book[..i]);
    }
  }

  lemma {:induction false} AheadIsOthers(order: Order, book: seq<Order>)
    requires order.stp.CancelMaker?
    ensures Ahead(order, book) == TotalRemaining(WithoutUser(book, order.user))
  {
    if book != [] {
      AheadIsOthers(order, book[1..]);
      if book[0].user != order.user {
        var others := WithoutUser(book[1..], order.user);
        assert ([book[0]] + others)[1..] == others;
      }
    }
  }

  // ---- CancelTaker and CancelBoth ------------------------------------------------------------

  /** The position of the first own order within reach, or the length of the book. */
  function FirstOwn(order: Order, book: seq<Order>): (c: nat)
    ensures c <= |book|
  {
    if book == [] then 0
    else if !PriceMatches(order, book[0]) then |book|
    else if book[0].user == order.user then 0
    else 1 + FirstOwn(order, book[1..])
  }

  /** `o` is `cut`, followed by `far`, whose head ends the walk if it is reached. */
  ghost predicate CutsAtOwn(order: Order, far: seq<Order>, o: Outcome, cut: Outcome) {
    var reached := far != [] && cut.result.incoming.remaining > 0;
    && o.result.trades == cut.result.trades
    && o.result.incoming == (if reached then Cancel(cut.result.incoming) else cut.result.incoming).(stp := order.stp)
    && o.book == cut.book + (if reached && order.stp.CancelBoth? then [Cancel(far[0])] + far[1..] else far)
  }

  lemma CutsAtOwnFront(order: Order, resting: Order, far: seq<Order>, rest: Outcome, cut: Outcome)
    requires resting.user != order.user && CutsAtOwn(order, far, rest, cut)
    ensures CutsAtOwn(order, far, Front(order, resting, rest), Front(order.(stp := StpNone), resting, cut))
  {
    var reached := far != [] && cut.result.incoming.remaining > 0;
    var tail := if reached && order.stp.CancelBoth? then [Cancel(far[0])] + far[1..] else far;
    assert [Visited(order, resting)] + (cut.book + tail) == [Visited(order, resting)] + cut.book + tail;
  }

  lemma {:induction false} WalkCutAtOwn(order: Order, near: seq<Order>, far: seq<Order>)
    requires order.stp.CancelTaker? || order.stp.CancelBoth?
    requires order.remaining >= 0 && NonNegative(near)
    requires !MeetsOwn(order, near)
    requires far != [] ==>
      && far[0].user == order.user && PriceMatches(order, far[0])
      && forall i :: 0 <= i < |near| ==> PriceMatches(order, near[i])
    ensures CutsAtOwn(order, far, Walk(order, near + far), Walk(order.(stp := StpNone), near))
    decreases near
  {
    var book := near + far;
    if near == [] {
      assert book == far;
    } else if !Stops(order, near) {
      assert book[0] == near[0] && book[1..] == near[1..] + far;
      var next := Next(order, near[0]);
      assert next.(stp := StpNone) == Next(order.(stp := StpNone), near[0]);
      ReachableIgnoresRemaining(order, next, near[1..]);
      WalkCutAtOwn(next, near[1..], far);
      CutsAtOwnFront(order, near[0], far, Walk(next, near[1..] + far), Walk(next.(stp := StpNone), near[1..]));
    }
  }

  lemma {:induction false} FirstOwnCuts(order: Order, book: seq<Order>)
    ensures var c := FirstOwn(order, book);
      && (c < |book| ==> book[c].user == order.user && PriceMatches(order, book[c]))
      && (c < |book| ==> forall i :: 0 <= i < c ==> PriceMatches(order, book[i]))
      && !MeetsOwn(order, book[..c])
  {
    var c := FirstOwn(order, book);
    if book != [] && PriceMatches(order, book[0]) && book[0].user != order.user {
      FirstOwnCuts(order, book[1..]);
      assert book[..c][0] == book[0] && book[..c][1..] == book[1..][..c - 1];
    } else if c > 0 {
      assert book[..c][0] == book[0];
    }
  }

  /** CancelTaker and CancelBoth match as if the book ended before the first own order within
      reach.  If quantity remains there the taker ends Cancelled, and only CancelBoth touches that
      order: nothing behind it changes. */
  lemma CutAtOwnEquivalence(order: Order, book: seq<Order>)
    requires order.stp.CancelTaker? || order.stp.CancelBoth?
    requires !order.tif.FOK? && order.remaining >= 0 && NonNegative(book)
    ensures var c := FirstOwn(order, book);
      CutsAtOwn(order, book[c..], Match(order, book), Match(order.(stp := StpNone), book[..c]))
  {
    WalkCutsAtOwn(order, book);
  }

  lemma WalkCutsAtOwn(order: Order, book: seq<Order>)
    requires order.stp.CancelTaker? || order.stp.CancelBoth?
    requires order.remaining >= 0 && NonNegative(book)
    ensures var c := FirstOwn(order, book);
      CutsAtOwn(order, book[c..], Walk(order, book), Walk(order.(stp := StpNone), book[..c]))
  {
    var c := FirstOwn(order, book);
    FirstOwnCuts(order, book);
    assert book[..c] + book[c..] == book;
    WalkCutAtOwn(order, book[..c], book[c..]);
  }

  // ---- The cost of a match ---------------------------------------------------------------------

  /** What an order may trade with: its own resting orders are skipped, or end the match. */
  function Tradable(order: Order, book: seq<Order>): seq<Order> {
    match order.stp
    case StpNone => book
    case CancelMaker => WithoutUser(book, order.user)
    case _ => book[..FirstOwn(order, book)]
  }

  /** The money that a match moves, from the order and the book alone. */
  function MatchCost(order: Order, book: seq<Order>): int {
    if FokRejects(order, book) then 0
    else Served(order.(stp := StpNone), Tradable(order, book), order.remaining).1
  }

  lemma CostIsServed(order: Order, book: seq<Order>)
    requires order.remaining >= 0 && NonNegative(book) && Prioritised(order, book)
    ensures TradeValue(Match(order, book).result.trades) == MatchCost(order, book)
  {
    if !FokRejects(order, book) {
      var free := order.(stp := StpNone);
      match order.stp {
        case StpNone =>
        case CancelMaker => WalkCancelMaker(order, book);
        case _ => WalkCutsAtOwn(order, book);
      }
      assert Walk(order, book).result.trades == Walk(free, Tradable(order, book)).result.trades;
      WalkServes(free, free, Tradable(order, book));
    }
  }
}
