/** Both sides of one pair's book over whole runs: whatever is submitted, under every
    self-trade-prevention mode, the sides stay sorted, every resting order has something left, and
    the best bid stays below the best ask.  (crates/shared/src/engine.rs, crates/shared/src/cache.rs) */
module Books {
  import opened Types
  import opened Engine
  import opened MatchLaws
  import opened PriorityLaws
  import opened EquivalenceLaws
  import opened SortedBook

  datatype Books = Books(bids: seq<Order>, asks: seq<Order>) {
    function Of(side: Side): seq<Order> { if side.Buy? then bids else asks }

    function With(side: Side, book: seq<Order>): Books {
      if side.Buy? then this.(bids := book) else this.(asks := book)
    }

    function AllIds(): set<OrderId> { Ids(bids) + Ids(asks) }
  }

  /** Every order of the side has at least this score: asks at least this price, bids at most its
      negation. */
  ghost predicate Floor(book: seq<Order>, score: int) {
    forall i :: 0 <= i < |book| ==> book[i].Score() >= score
  }

  /** Some price separates the sides: no bid above it, every ask above it. */
  ghost predicate Separated(b: Books, m: int) {
    Floor(b.bids, -m) && Floor(b.asks, m + 1)
  }

  ghost predicate ValidBooks(b: Books) {
    && ValidSide(Buy, b.bids) && ValidSide(Sell, b.asks)
    && Ids(b.bids) !! Ids(b.asks)
    && exists m :: Separated(b, m)
  }

  /** A new order as the workers build it: nothing filled yet, a price exactly if it is a limit. */
  predicate NewOrder(order: Order) {
    && order.status.New? && order.remaining == order.quantity > 0
    && (order.orderType.Limit? <==> order.price.Some?)
  }

  /** The opposite side after a match: the reported updates applied. */
  function OppositeAfter(b: Books, order: Order): seq<Order> {
    var opposite := b.Of(order.side.Opposite());
    ApplyUpdates(opposite, Match(order, opposite).result.bookUpdates)
  }

  function Incoming(b: Books, order: Order): Order {
    Match(order, b.Of(order.side.Opposite())).result.incoming
  }

  /** Match against the opposite side, store the updates, rest the remainder. */
  function Submit(b: Books, order: Order): Books {
    var matched := b.With(order.side.Opposite(), OppositeAfter(b, order));
    var rest := Incoming(b, order);
    if rest.IsOpen() then matched.With(order.side, Upsert(matched.Of(order.side), rest)) else matched
  }

  /** ZREM on the set of that side. */
  function Withdraw(b: Books, side: Side, id: OrderId): Books {
    b.With(side, RemoveId(b.Of(side), id))
  }

  // ---- One submission ----------------------------------------------------------------------------

  lemma {:induction false} LiveFloor(before: seq<Order>, after: seq<Order>, score: int)
    requires AllKept(before, after) && Floor(before, score)
    ensures Floor(Live(after), score)
  {
    if before != [] {
      assert AllKept(before[1..], after[1..]) && Floor(before[1..], score);
      LiveFloor(before[1..], after[1..], score);
      assert Keeps(before[0], after[0]) && before[0].Score() >= score;
    }
  }

  /** An incoming order that is left with quantity and was not cancelled leaves nothing open within
      its limit. */
  lemma {:induction false} LeavesBeyond(order: Order, book: seq<Order>)
    requires order.orderType.Limit? && order.price.Some? && order.remaining >= 0 && !order.status.Cancelled?
    requires ValidSide(order.side.Opposite(), book)
    requires Walk(order, book).result.incoming.remaining > 0 && !Walk(order, book).result.incoming.status.Cancelled?
    ensures Floor(Live(Walk(order, book).book), 1 - order.Score())
    decreases book
  {
    ValidFacts(order.side.Opposite(), book);
    if Ends(order, book) {
      LiveOfOpen(book);
    } else {
      LeavesBeyond(Next(order, book[0]), book[1..]);
      assert Visited(order, book[0]).IsClosed();
    }
  }

  /** What is left of the opposite side: valid, no better than before, and out of reach of an
      incoming order that rests. */
  lemma OppositeSide(b: Books, order: Order, score: int)
    requires ValidSide(order.side.Opposite(), b.Of(order.side.Opposite())) && NewOrder(order)
    requires Floor(b.Of(order.side.Opposite()), score)
    ensures var side, after := order.side.Opposite(), OppositeAfter(b, order);
      && ValidSide(side, after) && Ids(after) <= Ids(b.Of(side))
      && Floor(after, score)
      && (Incoming(b, order).IsOpen() ==> Floor(after, 1 - order.Score()))
  {
    var side := order.side.Opposite();
    var book := b.Of(side);
    ValidFacts(side, book);
    SortedIsPrioritised(order, book);
    ReportsAgree(order, book);
    if FokRejects(order, book) {
      LiveOfOpen(book);
    } else {
      WalkKeeps(order, book);
      LiveFloor(book, Walk(order, book).book, score);
      if Incoming(b, order).IsOpen() {
        FillAndStatus(order, book);
        LeavesBeyond(order, book);
      }
    }
  }

  /** Only the open remainder of a limit order rests, and it may. */
  lemma RemainderMayRest(b: Books, order: Order)
    requires ValidSide(order.side.Opposite(), b.Of(order.side.Opposite())) && NewOrder(order)
    requires Incoming(b, order).IsOpen()
    ensures MayRest(order.side, Incoming(b, order))
    ensures Incoming(b, order) == order.(remaining := Incoming(b, order).remaining, status := Incoming(b, order).status)
  {
    var book := b.Of(order.side.Opposite());
    ValidFacts(order.side.Opposite(), book);
    FillAndStatus(order, book);
  }

  lemma {:induction false} InsertFloor(book: seq<Order>, order: Order, score: int)
    requires Floor(book, score) && order.Score() >= score
    ensures Floor(Insert(book, order), score)
  {
    if !(book == [] || Precedes(order, book[0])) {
      InsertFloor(book[1..], order, score);
    }
  }

  lemma {:induction false} RemoveFloor(book: seq<Order>, id: OrderId, score: int)
    requires Floor(book, score)
    ensures Floor(RemoveId(book, id), score)
  {
    if book != [] {
      RemoveFloor(book[1..], id, score);
      assert book[0].Score() >= score;
    }
  }

  /** Submitting any new order keeps the books valid, under every self-trade-prevention mode. */
  lemma SubmitKeepsValid(b: Books, order: Order)
    requires ValidBooks(b) && NewOrder(order) && order.id !in b.AllIds()
    ensures ValidBooks(Submit(b, order))
    ensures Submit(b, order).AllIds() <= b.AllIds() + {order.id}
  {
    var m :| Separated(b, m);
    OppositeSide(b, order, if order.side.Buy? then m + 1 else -m);
    var matched := b.With(order.side.Opposite(), OppositeAfter(b, order));
    assert Separated(matched, m);
    var rest := Incoming(b, order);
    if rest.IsOpen() {
      RestKeepsValid(matched, rest, m, b, order);
    }
  }

  /** Where the sides are separated once a limit order rests that nothing on the other side reaches. */
  lemma RestSeparates(b: Books, rest: Order, m: int)
    requires Separated(b, m) && rest.price.Some? && Floor(b.Of(rest.side.Opposite()), 1 - rest.Score())
    ensures var m' := if rest.side.Buy? then Max(m, rest.price.value) else Min(m, rest.price.value - 1);
      Separated(b.With(rest.side, Insert(b.Of(rest.side), rest)), m')
  {
    var m' := if rest.side.Buy? then Max(m, rest.price.value) else Min(m, rest.price.value - 1);
    InsertFloor(b.Of(rest.side), rest, if rest.side.Buy? then -m' else m' + 1);
  }

  /** Resting a remainder that nothing on the other side reaches. */
  lemma RestKeepsValid(b: Books, rest: Order, m: int, before: Books, order: Order)
    requires ValidSide(Buy, b.bids) && ValidSide(Sell, b.asks) && Ids(b.bids) !! Ids(b.asks) && Separated(b, m)
    requires ValidSide(order.side.Opposite(), before.Of(order.side.Opposite())) && NewOrder(order)
    requires rest == Incoming(before, order) && rest.IsOpen()
    requires order.id !in b.AllIds() && Floor(b.Of(order.side.Opposite()), 1 - order.Score())
    ensures ValidBooks(b.With(order.side, Upsert(b.Of(order.side), rest)))
    ensures b.With(order.side, Upsert(b.Of(order.side), rest)).AllIds() == b.AllIds() + {order.id}
  {
    RemainderMayRest(before, order);
    RestIsValid(b, rest, m);
  }

  lemma RestIsValid(b: Books, rest: Order, m: int)
    requires ValidSide(Buy, b.bids) && ValidSide(Sell, b.asks) && Ids(b.bids) !! Ids(b.asks) && Separated(b, m)
    requires MayRest(rest.side, rest) && rest.id !in b.AllIds()
    requires Floor(b.Of(rest.side.Opposite()), 1 - rest.Score())
    ensures ValidBooks(b.With(rest.side, Upsert(b.Of(rest.side), rest)))
    ensures b.With(rest.side, Upsert(b.Of(rest.side), rest)).AllIds() == b.AllIds() + {rest.id}
  {
    UpsertFacts(rest.side, b.Of(rest.side), rest);
    RestSeparates(b, rest, m);
  }

  lemma WithdrawKeepsValid(b: Books, side: Side, id: OrderId)
    requires ValidBooks(b)
    ensures ValidBooks(Withdraw(b, side, id)) && Withdraw(b, side, id).AllIds() <= b.AllIds()
  {
    var m :| Separated(b, m);
    RemoveFacts(side, b.Of(side), id);
    RemoveFloor(b.Of(side), id, if side.Buy? then -m else m + 1);
    assert Separated(Withdraw(b, side, id), m);
  }

  // ---- Whole runs ----------------------------------------------------------------------------------

  datatype Event = Submitted(order: Order) | Withdrawn(side: Side, id: OrderId)

  function Apply(b: Books, e: Event): Books {
    match e
    case Submitted(order) => Submit(b, order)
    case Withdrawn(side, id) => Withdraw(b, side, id)
  }

  ghost predicate Legal(b: Books, events: seq<Event>)
    decreases events
  {
    events == [] ||
    (&& (events[0].Submitted? ==> NewOrder(events[0].order) && events[0].order.id !in b.AllIds())
     && Legal(Apply(b, events[0]), events[1..]))
  }

  function Run(b: Books, events: seq<Event>): Books
    decreases events
  {
    if events == [] then b else Run(Apply(b, events[0]), events[1..])
  }

  /** Over every run the book stays valid: sorted, positive and uncrossed. */
  lemma {:induction false} RunKeepsValid(b: Books, events: seq<Event>)
    requires ValidBooks(b) && Legal(b, events)
    ensures ValidBooks(Run(b, events))
    decreases events
  {
    if events != [] {
      match events[0] {
        case Submitted(order) => SubmitKeepsValid(b, order);
        case Withdrawn(side, id) => WithdrawKeepsValid(b, side, id);
      }
      RunKeepsValid(Apply(b, events[0]), events[1..]);
    }
  }

  /** In particular, starting from an empty book every bid is always below every ask. */
  lemma NeverCrossed(events: seq<Event>)
    requires Legal(Books([], []), events)
    ensures var b := Run(Books([], []), events);
      && SideSorted(Buy, b.bids) && SideSorted(Sell, b.asks) && Positive(b.bids) && Positive(b.asks)
      && (forall i, j :: 0 <= i < |b.bids| && 0 <= j < |b.asks| ==> b.bids[i].price.value < b.asks[j].price.value)
  {
    assert Separated(Books([], []), 0);
    RunKeepsValid(Books([], []), events);
    var b := Run(Books([], []), events);
    ValidFacts(Buy, b.bids);
    ValidFacts(Sell, b.asks);
  }
}
