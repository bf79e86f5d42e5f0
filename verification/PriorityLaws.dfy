/** Price-time priority: the walk in closed form for every slot of the book, greedy optimality,
    matching against a price-bounded prefix, and the agreement of the two reports of a match.
    (crates/shared/src/engine.rs, crates/shared/src/cache.rs) */
module PriorityLaws {
  import opened Types
  import opened Engine
  import opened MatchLaws

  // ---- The walk in closed form -------------------------------------------------------------

  /** The quantity of the tradeable orders among those visited earlier. */
  function Ahead(order: Order, earlier: seq<Order>): int {
    if earlier == [] then 0
    else (if SelfTrade(order, earlier[0]) then 0 else earlier[0].remaining) + Ahead(order, earlier[1..])
  }

  predicate AnyOwn(order: Order, earlier: seq<Order>) {
    exists j :: 0 <= j < |earlier| && SelfTrade(order, earlier[j])
  }

  /** Slot `i` after the match: earlier slots are served first, completely. */
  function SlotAfter(order: Order, book: seq<Order>, i: nat): Order
    requires i < |book|
  {
    var left := order.remaining - Ahead(order, book[..i]);
    if !PriceMatches(order, book[i]) || left <= 0 then book[i]
    else if !order.stp.CancelMaker? && AnyOwn(order, book[..i]) then book[i]
    else if SelfTrade(order, book[i]) then
      if order.stp.CancelTaker? then book[i] else Cancel(book[i])
    else Reduce(book[i], Min(left, book[i].remaining))
  }

  lemma {:induction false} AheadNonNegative(order: Order, earlier: seq<Order>)
    requires NonNegative(earlier)
    ensures Ahead(order, earlier) >= 0
  {
    if earlier != [] {
      AheadNonNegative(order, earlier[1..]);
    }
  }

  lemma {:induction false} AheadIgnoresRemaining(order: Order, order': Order, earlier: seq<Order>)
    requires order' == order.(remaining := order'.remaining, status := order'.status)
    ensures Ahead(order', earlier) == Ahead(order, earlier)
  {
    if earlier != [] {
      AheadIgnoresRemaining(order, order', earlier[1..]);
    }
  }

  /** Slot `i` of the book is slot `i - 1` of its tail, for the incoming order as it then is. */
  lemma SlotAfterTail(order: Order, book: seq<Order>, i: nat)
    requires 0 < i < |book| && order.remaining > 0 && NonNegative(book)
    requires PriceMatches(order, book[0])
    requires SelfTrade(order, book[0]) ==> order.stp.CancelMaker?
    ensures SlotAfter(order, book, i) == SlotAfter(Next(order, book[0]), book[1..], i - 1)
  {
    var next, tail := Next(order, book[0]), book[1..];
    assert book[..i][0] == book[0] && book[..i][1..] == tail[..i - 1];
    AheadIgnoresRemaining(order, next, tail[..i - 1]);
    AheadNonNegative(order, tail[..i - 1]);
    assert AnyOwn(order, book[..i]) && !order.stp.CancelMaker? ==> AnyOwn(next, tail[..i - 1]) by {
      if AnyOwn(order, book[..i]) && !order.stp.CancelMaker? {
        var j :| 0 <= j < i && SelfTrade(order, book[..i][j]);
        assert j > 0 && SelfTrade(next, tail[..i - 1][j - 1]);
      }
    }
    assert AnyOwn(next, tail[..i - 1]) ==> AnyOwn(order, book[..i]) by {
      if AnyOwn(next, tail[..i - 1]) {
        var j :| 0 <= j < i - 1 && SelfTrade(next, tail[..i - 1][j]);
        assert SelfTrade(order, book[..i][j + 1]);
      }
    }
  }

  lemma {:induction false} WalkSlot(order: Order, book: seq<Order>, i: nat)
    requires order.remaining >= 0 && NonNegative(book) && Prioritised(order, book) && i < |book|
    ensures |Walk(order, book).book| == |book|
    ensures Walk(order, book).book[i] == SlotAfter(order, book, i)
    decreases book
  {
    WalkConserves(order, book);
    AheadNonNegative(order, book[..i]);
    if !Stops(order, book) {
      if SelfTrade(order, book[0]) && !order.stp.CancelMaker? {
        assert i > 0 ==> SelfTrade(order, book[..i][0]);
      } else {
        if i > 0 {
          WalkSlot(Next(order, book[0]), book[1..], i - 1);
          SlotAfterTail(order, book, i);
        }
      }
    }
  }

  /** Price-time priority.  Every slot of a prioritised book ends up as if all tradeable slots
      before it had been served first; that is the whole effect of a match on the book, under every
      self-trade-prevention mode. */
  lemma PriorityFill(order: Order, book: seq<Order>)
    requires order.remaining >= 0 && NonNegative(book) && Prioritised(order, book)
    requires !FokRejects(order, book)
    ensures |Match(order, book).book| == |book|
    ensures forall i :: 0 <= i < |book| ==> Match(order, book).book[i] == SlotAfter(order, book, i)
  {
    WalkConserves(order, book);
    forall i | 0 <= i < |book| ensures Match(order, book).book[i] == SlotAfter(order, book, i) {
      WalkSlot(order, book, i);
    }
  }

  // ---- Greedy optimality ---------------------------------------------------------------------

  /** A book side as the store keeps it: best price first. */
  ghost predicate SideSorted(side: Side, book: seq<Order>) {
    && (forall i :: 0 <= i < |book| ==> book[i].side == side && book[i].price.Some?)
    && (forall i, j :: 0 <= i <= j < |book| ==> book[i].Score() <= book[j].Score())
  }

  lemma SortedIsPrioritised(order: Order, book: seq<Order>)
    requires SideSorted(order.side.Opposite(), book)
    ensures Prioritised(order, book)
  {
    forall i, j | 0 <= i < j < |book| && PriceMatches(order, book[j]) ensures PriceMatches(order, book[i]) {
      assert book[i].Score() <= book[j].Score();
    }
  }

  /** Some way to take quantity from the compatible orders of the book. */
  ghost predicate IsAllocation(order: Order, book: seq<Order>, taken: seq<int>) {
    && |taken| == |book|
    && forall i :: 0 <= i < |book| ==>
         && 0 <= taken[i] <= book[i].remaining
         && (taken[i] > 0 ==> PriceMatches(order, book[i]))
  }

  function Sum(taken: seq<int>): int {
    if taken == [] then 0 else taken[0] + Sum(taken[1..])
  }

  /** The money that an allocation moves. */
  function Value(book: seq<Order>, taken: seq<int>): int
    requires |taken| == |book| && forall i :: 0 <= i < |book| ==> book[i].price.Some?
  {
    if book == [] then 0 else taken[0] * book[0].price.value + Value(book[1..], taken[1..])
  }

  function TradeValue(trades: seq<Trade>): int {
    if trades == [] then 0 else trades[0].price * trades[0].quantity + TradeValue(trades[1..])
  }

  /** What the match took from each slot. */
  function Taken(book: seq<Order>, after: seq<Order>): (t: seq<int>)
    requires |book| == |after|
    ensures |t| == |book|
  {
    if book == [] then [] else [book[0].remaining - after[0].remaining] + Taken(book[1..], after[1..])
  }

  /** `taken` with its cost measured by book score, which a taker wants low on either side. */
  function ScoreValue(book: seq<Order>, taken: seq<int>): int
    requires |taken| == |book|
  {
    if book == [] then 0 else taken[0] * book[0].Score() + ScoreValue(book[1..], taken[1..])
  }

  lemma {:induction false} ScoreIsValue(side: Side, book: seq<Order>, taken: seq<int>)
    requires |taken| == |book| && SideSorted(side, book)
    ensures ScoreValue(book, taken) == if side.Sell? then Value(book, taken) else -Value(book, taken)
  {
    if book != [] {
      ScoreIsValue(side, book[1..], taken[1..]);
      assert taken[0] * (-book[0].price.value) == -(taken[0] * book[0].price.value);
    }
  }

  lemma {:induction false} FloorValue(side: Side, book: seq<Order>, taken: seq<int>, floor: int)
    requires |taken| == |book| && (forall i :: 0 <= i < |book| ==> taken[i] >= 0 && book[i].Score() >= floor)
    ensures Sum(taken) >= 0
    ensures ScoreValue(book, taken) >= Sum(taken) * floor
  {
    if book != [] {
      FloorValue(side, book[1..], taken[1..], floor);
      assert taken[0] * book[0].Score() >= taken[0] * floor;
      assert (taken[0] + Sum(taken[1..])) * floor == taken[0] * floor + Sum(taken[1..]) * floor;
    }
  }

  /** What a walk without self-trade prevention takes when `left` is still to be filled. */
  function Greedy(order: Order, book: seq<Order>, left: int): (t: seq<int>)
    ensures |t| == |book|
    decreases book
  {
    if book == [] then []
    else if left == 0 || !PriceMatches(order, book[0]) then [0] + Greedy(order, book[1..], 0)
    else
      var q := Min(left, book[0].remaining);
      [q] + Greedy(order, book[1..], left - q)
  }

  lemma {:induction false} GreedyNothing(order: Order, book: seq<Order>)
    ensures Sum(Greedy(order, book, 0)) == 0 && ScoreValue(book, Greedy(order, book, 0)) == 0
    ensures Greedy(order, book, 0) == Taken(book, book)
  {
    if book != [] {
      GreedyNothing(order, book[1..]);
      assert Greedy(order, book, 0)[1..] == Greedy(order, book[1..], 0);
    }
  }

  lemma {:induction false} GreedyIgnoresRemaining(order: Order, order': Order, book: seq<Order>, left: int)
    requires order' == order.(remaining := order'.remaining, status := order'.status)
    ensures Greedy(order', book, left) == Greedy(order, book, left)
    decreases book
  {
    if book != [] {
      GreedyIgnoresRemaining(order, order', book[1..], 0);
      GreedyIgnoresRemaining(order, order', book[1..], left - Min(left, book[0].remaining));
    }
  }

  lemma {:induction false} WalkTakesGreedily(order: Order, book: seq<Order>)
    requires order.stp.StpNone? && Prioritised(order, book)
    ensures |Walk(order, book).book| == |book|
    ensures Taken(book, Walk(order, book).book) == Greedy(order, book, order.remaining)
    decreases book
  {
    if Stops(order, book) {
      GreedyNothing(order, book);
      if book != [] {
        GreedyNothing(order, book[1..]);
      }
    } else {
      var next, tail := Next(order, book[0]), book[1..];
      WalkTakesGreedily(next, tail);
      GreedyIgnoresRemaining(order, next, tail, next.remaining);
    }
  }

  /** The exchange argument: any allocation of at least the greedy quantity costs at least the
      greedy cost plus the best price of the book for the excess. */
  lemma {:induction false} GreedyIsCheapest(order: Order, book: seq<Order>, left: int, taken: seq<int>, floor: int)
    requires SideSorted(order.side.Opposite(), book) && Positive(book)
    requires left >= 0 && IsAllocation(order, book, taken)
    requires forall i :: 0 <= i < |book| ==> book[i].Score() >= floor
    requires Sum(taken) >= Sum(Greedy(order, book, left))
    ensures ScoreValue(book, taken) - ScoreValue(book, Greedy(order, book, left))
         >= (Sum(taken) - Sum(Greedy(order, book, left))) * floor
    decreases book
  {
    var greedy := Greedy(order, book, left);
    if book == [] {
    } else if left == 0 || !PriceMatches(order, book[0]) {
      GreedyNothing(order, book[1..]);
      assert greedy[0] == 0 && greedy[1..] == Greedy(order, book[1..], 0);
      FloorValue(order.side.Opposite(), book, taken, floor);
    } else {
      var q, p, tail := Min(left, book[0].remaining), book[0].Score(), book[1..];
      assert greedy[0] == q && greedy[1..] == Greedy(order, tail, left - q);
      var excess := Sum(taken[1..]) - Sum(greedy[1..]);
      assert forall i :: 0 <= i < |tail| ==> tail[i].Score() >= p;
      if taken[0] <= q {
        GreedyIsCheapest(order, tail, left - q, taken[1..], p);
      } else {
        GreedyNothing(order, tail);
        FloorValue(order.side.Opposite(), tail, taken[1..], p);
      }
      Distribute(taken[0], q, excess, p, floor);
    }
  }

  lemma Distribute(t: int, q: int, excess: int, p: int, floor: int)
    requires p >= floor && t - q + excess >= 0
    ensures t * p - q * p + excess * p == (t - q + excess) * p >= (t - q + excess) * floor
  {
  }

  lemma {:induction false} ValueOfFills(order: Order, book: seq<Order>, after: seq<Order>)
    requires |book| == |after| && forall i :: 0 <= i < |book| ==> book[i].price.Some?
    requires forall i :: 0 <= i < |book| ==> after[i].remaining <= book[i].remaining
    ensures TradeValue(FillsOf(order, book, after)) == Value(book, Taken(book, after))
    ensures TotalTraded(FillsOf(order, book, after)) == Sum(Taken(book, after))
  {
    if book != [] {
      ValueOfFills(order, book[1..], after[1..]);
      var lost := book[0].remaining - after[0].remaining;
      assert Taken(book, after)[0] == lost && Taken(book, after)[1..] == Taken(book[1..], after[1..]);
      if lost > 0 {
        assert FillsOf(order, book, after)[1..] == FillsOf(order, book[1..], after[1..]);
      } else {
        assert FillsOf(order, book, after) == FillsOf(order, book[1..], after[1..]);
      }
    }
  }

  /** Without self-trade prevention the match fills min(remaining, available), and no other way to
      take that quantity from compatible orders costs a buyer less or pays a seller more. */
  lemma GreedyOptimality(order: Order, book: seq<Order>, taken: seq<int>)
    requires order.remaining > 0 && order.status.New? && order.stp.StpNone? && !order.tif.FOK?
    requires SideSorted(order.side.Opposite(), book) && Positive(book)
    requires IsAllocation(order, book, taken) && Sum(taken) == TotalTraded(Match(order, book).result.trades)
    ensures TotalTraded(Match(order, book).result.trades) == Min(order.remaining, Available(order, book))
    ensures order.side.Buy? ==> TradeValue(Match(order, book).result.trades) <= Value(book, taken)
    ensures order.side.Sell? ==> TradeValue(Match(order, book).result.trades) >= Value(book, taken)
  {
    FillsAvailable(order, book);
    TradedMoney(order, book);
    CheapestValue(order, book, order.remaining, taken);
  }

  lemma FillsAvailable(order: Order, book: seq<Order>)
    requires order.remaining > 0 && order.status.New? && order.stp.StpNone? && !order.tif.FOK?
    requires SideSorted(order.side.Opposite(), book) && Positive(book)
    ensures TotalTraded(Match(order, book).result.trades) == Min(order.remaining, Available(order, book))
  {
    SortedIsPrioritised(order, book);
    NoOwnWithoutStp(order, book);
    AvailableIsReachable(order, book);
    FillAndStatus(order, book);
  }

  lemma CheapestValue(order: Order, book: seq<Order>, left: int, taken: seq<int>)
    requires left >= 0 && SideSorted(order.side.Opposite(), book) && Positive(book)
    requires IsAllocation(order, book, taken) && Sum(taken) == Sum(Greedy(order, book, left))
    ensures order.side.Buy? ==> Value(book, Greedy(order, book, left)) <= Value(book, taken)
    ensures order.side.Sell? ==> Value(book, Greedy(order, book, left)) >= Value(book, taken)
  {
    GreedyIsCheapest(order, book, left, taken, if book == [] then 0 else book[0].Score());
    ScoreIsValue(order.side.Opposite(), book, taken);
    ScoreIsValue(order.side.Opposite(), book, Greedy(order, book, left));
  }

  /** The money of the trades is the value of the greedy allocation. */
  lemma TradedMoney(order: Order, book: seq<Order>)
    requires order.remaining > 0 && order.stp.StpNone? && !order.tif.FOK?
    requires SideSorted(order.side.Opposite(), book) && Positive(book)
    ensures var o, greedy := Match(order, book), Greedy(order, book, order.remaining);
      && |o.book| == |book|
      && Taken(book, o.book) == greedy
      && TradeValue(o.result.trades) == Value(book, greedy)
      && TotalTraded(o.result.trades) == Sum(greedy)
  {
    var after := Walk(order, book).book;
    SortedIsPrioritised(order, book);
    WalkConserves(order, book);
    WalkTradesAreFills(order, book);
    WalkTakesGreedily(order, book);
    assert forall i :: 0 <= i < |book| ==> OnlyFilled(book[i], after[i]);
    ValueOfFills(order, book, after);
  }

  lemma {:induction false} NoOwnWithoutStp(order: Order, book: seq<Order>)
    requires order.stp.StpNone?
    ensures !MeetsOwn(order, book)
  {
    if book != [] {
      NoOwnWithoutStp(order, book[1..]);
    }
  }

  // ---- The two reports of a match agree ----------------------------------------------------------

  /** The reported updates are exactly the changed prefix of the slice mutated in place. */
  lemma {:induction false} UpdatesArePrefix(order: Order, book: seq<Order>)
    ensures var o, n := Match(order, book), |Match(order, book).result.bookUpdates|;
      && n <= |book| == |o.book|
      && o.result.bookUpdates == o.book[..n]
      && o.book[n..] == book[n..]
  {
    WalkUpdatesArePrefix(order, book);
  }

  lemma {:induction false} WalkUpdatesArePrefix(order: Order, book: seq<Order>)
    ensures var o, n := Walk(order, book), |Walk(order, book).result.bookUpdates|;
      && n <= |book| == |o.book|
      && o.result.bookUpdates == o.book[..n]
      && o.book[n..] == book[n..]
    decreases book
  {
    if !Stops(order, book) && !(SelfTrade(order, book[0]) && !order.stp.CancelMaker?) {
      WalkUpdatesArePrefix(Next(order, book[0]), book[1..]);
      var o, rest := Walk(order, book), Walk(Next(order, book[0]), book[1..]);
      var n := |o.result.bookUpdates|;
      assert o.book[n..] == rest.book[n - 1..];
    }
  }

  // ---- A price-bounded prefix of the book is enough ---------------------------------------------

  lemma {:induction false} AvailableInPrefix(order: Order, near: seq<Order>, far: seq<Order>)
    requires forall i :: 0 <= i < |far| ==> !PriceMatches(order, far[i])
    ensures Available(order, near + far) == Available(order, near)
  {
    if near == [] {
      assert near + far == far;
      NoneAvailable(order, far);
    } else {
      assert (near + far)[1..] == near[1..] + far;
      AvailableInPrefix(order, near[1..], far);
    }
  }

  lemma {:induction false} WalkPrefix(order: Order, near: seq<Order>, far: seq<Order>)
    requires forall i :: 0 <= i < |far| ==> !PriceMatches(order, far[i])
    ensures Walk(order, near + far).result == Walk(order, near).result
    ensures Walk(order, near + far).book == Walk(order, near).book + far
    decreases near
  {
    var book := near + far;
    if near == [] {
      assert book == far;
    } else {
      assert book[0] == near[0] && book[1..] == near[1..] + far;
      if !Ends(order, near) {
        WalkPrefix(Next(order, near[0]), near[1..], far);
      }
    }
  }

  /** Orders beyond the price bound change nothing: matching the loaded prefix gives the same
      result, and leaves the part that was not loaded as it is. */
  lemma PrefixIsEnough(order: Order, near: seq<Order>, far: seq<Order>)
    requires forall i :: 0 <= i < |far| ==> !PriceMatches(order, far[i])
    ensures Match(order, near + far).result == Match(order, near).result
    ensures Match(order, near + far).book == Match(order, near).book + far
  {
    AvailableInPrefix(order, near, far);
    WalkPrefix(order, near, far);
  }
}
