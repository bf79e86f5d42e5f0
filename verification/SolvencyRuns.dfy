/** Solvency over whole runs of placing, persisting in any order, and cancelling; exactly when a
    market buy, an update without inserts, and a cancellation keep it.
    (crates/api/src/routes.rs, crates/api/src/worker.rs, crates/gateway/src/worker.rs) */
module SolvencyRuns {
  import opened Types
  import opened Engine
  import opened MatchLaws
  import opened PriorityLaws
  import opened EquivalenceLaws
  import opened SortedBook
  import opened Books
  import opened Ledger
  import opened LedgerLaws
  import opened Exchange
  import opened Solvency

  // ---- The invariant -----------------------------------------------------------------------------

  /** An order of the pair with a nonnegative price and something left. */
  predicate Owed(p: Pair, order: Order) {
    order.pair == p && order.price.Some? && order.price.value >= 0 && order.remaining > 0
  }

  ghost predicate AllOwed(p: Pair, book: seq<Order>) {
    forall i :: 0 <= i < |book| ==> Owed(p, book[i])
  }

  predicate Distinct(book: seq<Order>) {
    book == [] || (book[0].id !in Ids(book[1..]) && Distinct(book[1..]))
  }

  ghost predicate Orderly(p: Pair, s: State) {
    && ValidBooks(s.books)
    && AllOwed(p, s.books.bids) && AllOwed(p, s.books.asks) && AllOwed(p, s.stopped)
    && Distinct(s.stopped) && Ids(s.stopped) !! s.books.AllIds()
    && SoundJobs(s.pending)
  }

  /** Every row has locked what is needed from it. */
  ghost predicate Secured(s: State) { forall k :: LockedAt(s.table, k) >= Needed(s, k) }

  /** `t0` is the table that the run started from. */
  ghost predicate Solvent(p: Pair, t0: Table, s: State) {
    && Orderly(p, s) && Secured(s)
    && (forall k :: LockedAt(s.table, k) == LockedAt(t0, k) + Accounts(s, k))
    && (forall k :: At(s.table, k).available >= 0)
    && (forall a :: Total(s.table, a) == Total(t0, a))
  }

  /** New orders of the pair, limits at nonnegative prices. */
  predicate Admissible(p: Pair, order: Order) {
    NewOrder(order) && order.pair == p && (order.price.Some? ==> order.price.value >= 0)
  }

  predicate MarketBuy(order: Order) { order.orderType.Market? && order.side.Buy? }

  lemma {:induction false} ObligationsNonNegative(p: Pair, book: seq<Order>, k: Key)
    requires AllOwed(p, book)
    ensures Obligations(book, k) >= 0
  {
    if book != [] {
      var o := book[0];
      assert Owed(p, o) && AllOwed(p, book[1..]);
      assert o.price.value * o.remaining >= 0;
      ObligationsNonNegative(p, book[1..], k);
    }
  }

  lemma NeededNonNegative(p: Pair, s: State, k: Key)
    requires Orderly(p, s)
    ensures Needed(s, k) >= JobsDecrease(s.pending, k) >= 0
  {
    ObligationsNonNegative(p, s.books.bids, k);
    ObligationsNonNegative(p, s.books.asks, k);
    ObligationsNonNegative(p, s.stopped, k);
    JobsDecreaseSound(s.pending, k);
  }

  // ---- Placing -----------------------------------------------------------------------------------

  lemma {:induction false} InsertObligations(book: seq<Order>, order: Order, k: Key)
    ensures Obligations(Insert(book, order), k) == Obligations(book, k) + Obligation(order, k)
  {
    if book == [] || Precedes(order, book[0]) {
      assert ([order] + book)[1..] == book;
    } else {
      InsertObligations(book[1..], order, k);
      assert ([book[0]] + Insert(book[1..], order))[1..] == Insert(book[1..], order);
    }
  }

  lemma {:induction false} InsertOwed(p: Pair, book: seq<Order>, order: Order)
    requires AllOwed(p, book) && Owed(p, order)
    ensures AllOwed(p, Insert(book, order))
  {
    if !(book == [] || Precedes(order, book[0])) {
      InsertOwed(p, book[1..], order);
    }
  }

  lemma {:induction false} LiveOwed(p: Pair, before: seq<Order>, after: seq<Order>)
    requires AllOwed(p, before) && AllKept(before, after)
    ensures AllOwed(p, Live(after))
  {
    if before != [] {
      assert AllKept(before[1..], after[1..]) && AllOwed(p, before[1..]);
      LiveOwed(p, before[1..], after[1..]);
      assert Owed(p, before[0]) && Keeps(before[0], after[0]);
    }
  }

  /** The trades move nothing backwards.  They do not cost the taker more than it locked, except a
      market buy, which locked nothing. */
  ghost predicate SoundFor(order: Order, trades: seq<Trade>, k: Key) {
    && Sound(trades)
    && (if MarketBuy(order) then Surplus(order, trades, k) == (if k == LockKey(order) then -TradeValue(trades) else 0)
        else Surplus(order, trades, k) >= 0)
  }

  lemma FrontSound(p: Pair, order: Order, maker: Order, trades: seq<Trade>, k: Key)
    requires order.remaining >= 0 && Owed(p, maker) && PriceMatches(order, maker)
    requires order.orderType.Limit? <==> order.price.Some?
    requires SoundFor(order, trades, k)
    ensures SoundFor(order, [TradeOf(order, maker, Fill(order, maker))] + trades, k)
  {
    var trade := TradeOf(order, maker, Fill(order, maker));
    assert ([trade] + trades)[1..] == trades;
    assert trade.price * trade.quantity >= 0;
    if MarketBuy(order) {
      assert (0 - trade.price) * trade.quantity == -(trade.price * trade.quantity);
    } else {
      assert order.side.Buy? ==> (order.PriceOrZero() - trade.price) * trade.quantity >= 0;
    }
  }

  lemma {:induction false} WalkSound(p: Pair, order: Order, book: seq<Order>, k: Key)
    requires order.remaining >= 0 && AllOwed(p, book)
    requires order.orderType.Limit? <==> order.price.Some?
    ensures SoundFor(order, Walk(order, book).result.trades, k)
    decreases book
  {
    if !Ends(order, book) {
      var maker, next := book[0], Next(order, book[0]);
      assert Owed(p, maker) && AllOwed(p, book[1..]);
      WalkSound(p, next, book[1..], k);
      var trades := Walk(next, book[1..]).result.trades;
      SurplusIgnoresRemaining(order, next, trades, k);
      if !SelfTrade(order, maker) {
        FrontSound(p, order, maker, trades, k);
      }
    }
  }

  lemma {:induction false} StoppedFacts(p: Pair, order: Order, book: seq<Order>)
    requires AllOwed(p, book) && Distinct(book)
    ensures AllOwed(p, WalkStopped(order, book)) && Distinct(WalkStopped(order, book))
    ensures Ids(WalkStopped(order, book)) <= Ids(book)
    ensures Ids(WalkStopped(order, book)) !! Ids(Live(Walk(order, book).book))
    decreases book
  {
    if book != [] {
      assert Owed(p, book[0]) && AllOwed(p, book[1..]);
    }
    if Ends(order, book) {
      if !Stops(order, book) && order.stp.CancelBoth? {
        assert [book[0]][1..] == [];
        LiveHead(Cancel(book[0]), book[1..]);
        LiveIds(book[1..]);
      }
    } else {
      var next, tail := Next(order, book[0]), book[1..];
      StoppedFacts(p, next, tail);
      var stopped, rest := WalkStopped(next, tail), Walk(next, tail).book;
      LiveHead(Visited(order, book[0]), rest);
      assert ([book[0]] + stopped)[1..] == stopped;
      assert ([Visited(order, book[0])] + Live(rest))[1..] == Live(rest);
      WalkIds(next, tail);
    }
  }

  lemma {:induction false} LiveIds(book: seq<Order>)
    ensures Ids(Live(book)) <= Ids(book)
  {
    if book != [] {
      LiveIds(book[1..]);
      assert ([book[0]] + Live(book[1..]))[1..] == Live(book[1..]);
    }
  }

  lemma {:induction false} WalkIds(order: Order, book: seq<Order>)
    ensures Ids(Live(Walk(order, book).book)) <= Ids(book)
    decreases book
  {
    if Ends(order, book) {
      LiveIds(book);
      if !Stops(order, book) && order.stp.CancelBoth? {
        LiveHead(Cancel(book[0]), book[1..]);
        LiveIds(book[1..]);
      }
    } else {
      WalkIds(Next(order, book[0]), book[1..]);
      var rest := Walk(Next(order, book[0]), book[1..]).book;
      LiveHead(Visited(order, book[0]), rest);
      assert ([Visited(order, book[0])] + Live(rest))[1..] == Live(rest);
    }
  }

  lemma {:induction false} ValidIsDistinct(side: Side, book: seq<Order>)
    requires ValidSide(side, book)
    ensures Distinct(book)
  {
    if book != [] {
      ValidIsDistinct(side, book[1..]);
    }
  }

  lemma {:induction false} DistinctConcat(a: seq<Order>, b: seq<Order>)
    requires Distinct(a) && Distinct(b) && Ids(a) !! Ids(b)
    ensures Distinct(a + b)
  {
    if a == [] {
      assert a + b == b;
    } else {
      assert (a + b)[0] == a[0] && (a + b)[1..] == a[1..] + b;
      DistinctConcat(a[1..], b);
      IdsConcat(a[1..], b);
    }
  }

  lemma {:induction false} ObligationsConcat(a: seq<Order>, b: seq<Order>, k: Key)
    ensures Obligations(a + b, k) == Obligations(a, k) + Obligations(b, k)
  {
    if a == [] {
      assert a + b == b;
    } else {
      assert (a + b)[0] == a[0] && (a + b)[1..] == a[1..] + b;
      ObligationsConcat(a[1..], b, k);
    }
  }

  lemma {:induction false} SurplusesConcat(a: seq<Job>, b: seq<Job>, k: Key)
    ensures Surpluses(a + b, k) == Surpluses(a, k) + Surpluses(b, k)
  {
    if a == [] {
      assert a + b == b;
    } else {
      assert (a + b)[0] == a[0] && (a + b)[1..] == a[1..] + b;
      SurplusesConcat(a[1..], b, k);
    }
  }

  /** The match of an order and its job. */
  function JobOf(b: Books, order: Order): Job {
    var result := Match(order, b.Of(order.side.Opposite())).result;
    Job(result.incoming, result.trades)
  }

  /** Both sides of the book after a submission. */
  lemma SubmitSides(p: Pair, b: Books, order: Order)
    requires ValidBooks(b) && AllOwed(p, b.bids) && AllOwed(p, b.asks)
    requires Admissible(p, order) && order.id !in b.AllIds()
    ensures var side, o := order.side.Opposite(), Match(order, b.Of(order.side.Opposite()));
      var own, rest := b.Of(order.side), o.result.incoming;
      && Submit(b, order).Of(side) == Live(o.book)
      && Submit(b, order).Of(order.side) == (if rest.IsOpen() then Insert(own, rest) else own)
      && AllOwed(p, Live(o.book))
      && (rest.IsOpen() ==> Owed(p, rest))
      && (rest.IsOpen() || rest.IsClosed())
      && rest == order.(remaining := rest.remaining, status := rest.status)
      && 0 <= rest.remaining
  {
    var side := order.side.Opposite();
    var book := b.Of(side);
    ValidFacts(side, book);
    ReportsAgree(order, book);
    FillAndStatus(order, book);
    Conservation(order, book);
    if FokRejects(order, book) {
      LiveOfOpen(book);
    } else {
      WalkKeeps(order, book);
      LiveOwed(p, book, Walk(order, book).book);
    }
    if Incoming(b, order).IsOpen() {
      RemainderMayRest(b, order);
      RemoveAbsent(b.Of(order.side), order.id);
    }
  }

  /** A submission moves the obligation of the order to the book, the stopped orders, the job and
      the surplus. */
  lemma SubmitBalance(p: Pair, b: Books, order: Order, k: Key)
    requires ValidBooks(b) && AllOwed(p, b.bids) && AllOwed(p, b.asks)
    requires Admissible(p, order) && order.id !in b.AllIds()
    ensures var after, job := Submit(b, order), JobOf(b, order);
      Obligations(after.bids, k) + Obligations(after.asks, k)
      + Obligations(StoppedBy(order, b.Of(order.side.Opposite())), k)
      + JobDecrease(job, k) + Surplus(job.order, job.trades, k)
      == Obligations(b.bids, k) + Obligations(b.asks, k) + Obligation(order, k)
  {
    var book := b.Of(order.side.Opposite());
    SubmitSides(p, b, order);
    forall i | 0 <= i < |book| ensures book[i].pair == order.pair {
      assert Owed(p, book[i]);
    }
    MatchBalance(order, book, k);
    var rest := Incoming(b, order);
    SurplusIgnoresRemaining(order, rest, Match(order, book).result.trades, k);
    if rest.IsOpen() {
      InsertObligations(b.Of(order.side), rest, k);
    }
  }

  lemma JobIsSound(p: Pair, b: Books, order: Order, k: Key)
    requires ValidBooks(b) && AllOwed(p, b.bids) && AllOwed(p, b.asks)
    requires Admissible(p, order) && order.id !in b.AllIds()
    ensures SoundFor(JobOf(b, order).order, JobOf(b, order).trades, k)
    ensures LockedFor(JobOf(b, order).order, JobOf(b, order).order.remaining) >= 0
  {
    var book := b.Of(order.side.Opposite());
    var result := Match(order, book).result;
    SubmitSides(p, b, order);
    MatchSound(p, order, book, result, k);
    LockedNonNegative(result.incoming);
  }

  lemma MatchSound(p: Pair, order: Order, book: seq<Order>, result: MatchResult, k: Key)
    requires AllOwed(p, book) && Admissible(p, order) && result == Match(order, book).result
    ensures SoundFor(result.incoming, result.trades, k)
  {
    WalkSound(p, order, book, k);
    MatchKeepsOrder(order, book);
    SurplusIgnoresRemaining(order, result.incoming, result.trades, k);
  }

  lemma LockedNonNegative(order: Order)
    requires order.remaining >= 0 && order.PriceOrZero() >= 0
    ensures LockedFor(order, order.remaining) >= 0
  {
    assert order.PriceOrZero() * order.remaining >= 0;
  }

  /** A market buy locks nothing itself: its buyer must have locked, beyond what open orders, stopped
      orders and pending matches need, what it costs on the book. */
  predicate PaidFor(s: State, order: Order) {
    MarketBuy(order) ==> LockedAt(s.table, LockKey(order)) >= Needed(s, LockKey(order)) + MatchCost(order, s.books.asks)
  }

  /** A placed order raises what is needed by what it locks, less its price improvement; a market buy,
      by what it costs. */
  lemma PlaceNeeds(p: Pair, s: State, order: Order, k: Key)
    requires Orderly(p, s) && Admissible(p, order) && Lock(s.table, order).Some? && order.id !in s.books.AllIds()
    ensures var s' := Place(s, order);
      var more, locks := Needed(s', k) - Needed(s, k), LockedAt(s'.table, k) - LockedAt(s.table, k);
      && (MarketBuy(order) ==> locks == 0 && more == if k == LockKey(order) then MatchCost(order, s.books.asks) else 0)
      && (!MarketBuy(order) ==> locks >= more)
  {
    var book := s.books.Of(order.side.Opposite());
    var job := JobOf(s.books, order);
    SubmitBalance(p, s.books, order, k);
    ObligationsConcat(s.stopped, StoppedBy(order, book), k);
    JobsConcat(s.pending, [job], k);
    assert [job][1..] == [];
    JobIsSound(p, s.books, order, k);
    MatchKeepsOrder(order, book);
    ValidFacts(order.side.Opposite(), book);
    SortedIsPrioritised(order, book);
    CostIsServed(order, book);
  }

  lemma PlaceKeepsSecured(p: Pair, s: State, order: Order)
    requires Orderly(p, s) && Secured(s) && Admissible(p, order)
    requires Lock(s.table, order).Some? && order.id !in s.books.AllIds()
    ensures Secured(Place(s, order)) <==> PaidFor(s, order)
  {
    var s', key := Place(s, order), LockKey(order);
    forall k ensures LockedAt(s'.table, k) >= Needed(s', k) <==> (k == key ==> PaidFor(s, order)) {
      PlaceNeeds(p, s, order, k);
      assert LockedAt(s.table, k) >= Needed(s, k);
    }
    if Secured(s') {
      assert LockedAt(s'.table, key) >= Needed(s', key);
    }
  }

  lemma SubmitOrderly(p: Pair, s: State, order: Order)
    requires Orderly(p, s) && Admissible(p, order) && Lock(s.table, order).Some?
    requires order.id !in s.books.AllIds() + Ids(s.stopped)
    ensures Orderly(p, Place(s, order))
  {
    var s', job := Place(s, order), JobOf(s.books, order);
    SubmitKeepsValid(s.books, order);
    SubmitSides(p, s.books, order);
    JobIsSound(p, s.books, order, LockKey(order));
    if Incoming(s.books, order).IsOpen() {
      InsertOwed(p, s.books.Of(order.side), Incoming(s.books, order));
    }
    StoppedOrderly(p, s, order);
    forall i | 0 <= i < |s'.pending|
      ensures Sound(s'.pending[i].trades)
      ensures Releases(s'.pending[i].order) ==> LockedFor(s'.pending[i].order, s'.pending[i].order.remaining) >= 0
    {
      if i == |s.pending| {
        assert s'.pending[i] == job == [job][0];
      } else {
        assert s'.pending[i] == s.pending[i];
      }
    }
  }

  /** The stopped orders leave the book, and nothing else has their ids. */
  lemma StoppedIds(p: Pair, b: Books, order: Order)
    requires ValidBooks(b) && AllOwed(p, b.bids) && AllOwed(p, b.asks)
    requires Admissible(p, order) && order.id !in b.AllIds()
    ensures var stopped := StoppedBy(order, b.Of(order.side.Opposite()));
      && AllOwed(p, stopped) && Distinct(stopped)
      && Ids(stopped) <= b.AllIds() && Ids(stopped) !! Submit(b, order).AllIds()
  {
    var side := order.side.Opposite();
    var book, own := b.Of(side), b.Of(order.side);
    ValidIsDistinct(side, book);
    StoppedFacts(p, order, book);
    SubmitSides(p, b, order);
    if Incoming(b, order).IsOpen() {
      RemainderMayRest(b, order);
      InsertFacts(order.side, own, Incoming(b, order));
    }
  }

  lemma StoppedOrderly(p: Pair, s: State, order: Order)
    requires Orderly(p, s) && Admissible(p, order)
    requires order.id !in s.books.AllIds() + Ids(s.stopped)
    ensures var stopped := s.stopped + StoppedBy(order, s.books.Of(order.side.Opposite()));
      && AllOwed(p, stopped) && Distinct(stopped) && Ids(stopped) !! Submit(s.books, order).AllIds()
  {
    var more := StoppedBy(order, s.books.Of(order.side.Opposite()));
    StoppedIds(p, s.books, order);
    SubmitKeepsValid(s.books, order);
    DistinctConcat(s.stopped, more);
    IdsConcat(s.stopped, more);
  }

  /** Placing an order keeps the account of every locked unit. */
  lemma PlaceAccounts(p: Pair, t0: Table, s: State, order: Order, k: Key)
    requires Solvent(p, t0, s) && Admissible(p, order) && Lock(s.table, order).Some?
    requires order.id !in s.books.AllIds()
    ensures LockedAt(Place(s, order).table, k) == LockedAt(t0, k) + Accounts(Place(s, order), k)
  {
    var job := JobOf(s.books, order);
    SubmitBalance(p, s.books, order, k);
    ObligationsConcat(s.stopped, StoppedBy(order, s.books.Of(order.side.Opposite())), k);
    JobsConcat(s.pending, [job], k);
    SurplusesConcat(s.history, [job], k);
    assert [job][1..] == [];
    assert LockedAt(s.table, k) == LockedAt(t0, k) + Accounts(s, k);
  }

  /** Placing an order, accepted or not, keeps the exchange solvent if a market buy is paid for. */
  lemma PlaceKeepsSolvent(p: Pair, t0: Table, s: State, order: Order)
    requires Solvent(p, t0, s) && Admissible(p, order) && (Lock(s.table, order).Some? ==> PaidFor(s, order))
    requires order.id !in s.books.AllIds() + Ids(s.stopped)
    ensures Solvent(p, t0, Place(s, order))
  {
    if Lock(s.table, order).Some? {
      var s', key := Place(s, order), LockKey(order);
      SubmitOrderly(p, s, order);
      PlaceKeepsSecured(p, s, order);
      PlaceMovesUnits(p, t0, s, order);
    }
  }

  /** Placing an order, paid for or not, keeps the account and every total, and makes nothing available
      negative. */
  lemma PlaceMovesUnits(p: Pair, t0: Table, s: State, order: Order)
    requires Solvent(p, t0, s) && Admissible(p, order) && Lock(s.table, order).Some?
    requires order.id !in s.books.AllIds()
    ensures var s' := Place(s, order);
      && (forall k :: LockedAt(s'.table, k) == LockedAt(t0, k) + Accounts(s', k))
      && (forall k :: At(s'.table, k).available >= 0)
      && (forall a :: Total(s'.table, a) == Total(t0, a))
  {
    var s', key := Place(s, order), LockKey(order);
    forall k ensures LockedAt(s'.table, k) == LockedAt(t0, k) + Accounts(s', k) {
      PlaceAccounts(p, t0, s, order, k);
    }
    forall a ensures Total(s'.table, a) == Total(t0, a) {
      TotalPut(s.table, key, s'.table[key], a);
    }
    forall k ensures At(s'.table, k).available >= 0 {
      assert At(s.table, k).available >= 0;
    }
  }

  /** After an accepted order every row still has locked what is needed from it, exactly if the order,
      being a market buy, is paid for; and then, only then, the exchange is still solvent. */
  lemma PlaceExactly(p: Pair, t0: Table, s: State, order: Order)
    requires Solvent(p, t0, s) && Admissible(p, order) && Lock(s.table, order).Some?
    requires order.id !in s.books.AllIds() + Ids(s.stopped)
    ensures Secured(Place(s, order)) <==> PaidFor(s, order)
    ensures Solvent(p, t0, Place(s, order)) <==> PaidFor(s, order)
  {
    PlaceKeepsSecured(p, s, order);
    if PaidFor(s, order) {
      PlaceKeepsSolvent(p, t0, s, order);
    }
  }

  // ---- Persisting --------------------------------------------------------------------------------

  /** A pending job never meets a clamp: what it takes is locked, in every row. */
  lemma NoClamp(p: Pair, t0: Table, s: State, i: nat, k: Key)
    requires Solvent(p, t0, s) && i < |s.pending|
    ensures LockedAt(s.table, k) >= JobDecrease(s.pending[i], k) >= 0
    ensures JobsDecrease(s.pending[..i] + s.pending[i + 1..], k)
         == JobsDecrease(s.pending, k) - JobDecrease(s.pending[i], k)
    ensures JobIncrease(s.pending[i], k) >= 0
  {
    var near, job, far := s.pending[..i], s.pending[i], s.pending[i + 1..];
    assert s.pending == near + [job] + far;
    JobsConcat(near + [job], far, k);
    JobsConcat(near, [job], k);
    JobsConcat(near, far, k);
    assert [job][1..] == [];
    assert SoundJobs(near) && SoundJobs(far) && Sound(job.trades);
    JobsDecreaseSound(near, k);
    JobsDecreaseSound(far, k);
    DecreaseSound(job.trades, k);
    NeededNonNegative(p, s, k);
    assert LockedAt(s.table, k) >= Needed(s, k);
  }

  /** Persisting any pending match, in any order, keeps the exchange solvent. */
  lemma PersistKeepsSolvent(p: Pair, t0: Table, s: State, i: nat)
    requires Solvent(p, t0, s) && i < |s.pending|
    ensures Solvent(p, t0, Persist(s, i))
  {
    var s', job := Persist(s, i), s.pending[i];
    assert SoundJobs([job]);
    assert forall j :: 0 <= j < |s'.pending| ==> s'.pending[j] == s.pending[if j < i then j else j + 1];
    forall k ensures LockedAt(s.table, k) >= JobDecrease(job, k) {
      NoClamp(p, t0, s, i, k);
    }
    assert NoDebt(s.table) by {
      forall k | k in s.table ensures s.table[k].locked >= 0 {
        NoClamp(p, t0, s, i, k);
      }
    }
    PersistJobExact(s.table, job);
    forall k ensures LockedAt(s'.table, k) == LockedAt(t0, k) + Accounts(s', k) >= Needed(s', k)
      ensures At(s'.table, k).available >= 0
    {
      NoClamp(p, t0, s, i, k);
      assert LockedAt(s.table, k) == LockedAt(t0, k) + Accounts(s, k) >= Needed(s, k);
      assert At(s.table, k).available >= 0;
    }
  }

  /** Solvency looks at rows and totals only. */
  lemma SameRowsSolvent(p: Pair, t0: Table, s: State, s': State)
    requires Solvent(p, t0, s) && s' == s.(table := s'.table)
    requires forall k :: At(s'.table, k) == At(s.table, k)
    requires forall a :: Total(s'.table, a) == Total(t0, a)
    ensures Solvent(p, t0, s')
  {
    forall k
      ensures LockedAt(s'.table, k) == LockedAt(t0, k) + Accounts(s', k) >= Needed(s', k)
      ensures At(s'.table, k).available >= 0
    {
      assert At(s'.table, k) == At(s.table, k);
      assert LockedAt(s.table, k) == LockedAt(t0, k) + Accounts(s, k) >= Needed(s, k);
      assert At(s.table, k).available >= 0;
    }
  }

  /** Persisting a match by updates alone keeps the exchange solvent exactly if every row that it
      credits is there. */
  lemma PersistExistingExactly(p: Pair, t0: Table, s: State, i: nat)
    requires Solvent(p, t0, s) && i < |s.pending|
    ensures Solvent(p, t0, PersistExisting(s, i)) <==> CreditsLand(s.table, s.pending[i].trades)
  {
    var job := s.pending[i];
    assert SoundJobs([job]);
    forall k ensures LockedAt(s.table, k) >= JobDecrease(job, k) && LockedAt(s.table, k) >= 0 {
      NoClamp(p, t0, s, i, k);
    }
    assert NoDebt(s.table) by {
      assert forall k :: k in s.table ==> LockedAt(s.table, k) == s.table[k].locked;
    }
    ExistingExactly(s.table, job);
    var after := PersistJobExisting(s.table, job);
    if Solvent(p, t0, PersistExisting(s, i)) {
      forall a ensures SameTotal(s.table, after, a) {
        assert Total(after, a) == Total(t0, a) && Total(s.table, a) == Total(t0, a);
      }
    }
    if CreditsLand(s.table, job.trades) {
      PersistKeepsSolvent(p, t0, s, i);
      forall a ensures Total(after, a) == Total(t0, a) {
        assert SameTotal(s.table, after, a);
      }
      SameRowsSolvent(p, t0, Persist(s, i), PersistExisting(s, i));
    }
  }

  // ---- Cancelling --------------------------------------------------------------------------------

  /** What the orders of one id need locked. */
  function Under(book: seq<Order>, id: OrderId, k: Key): int {
    if book == [] then 0
    else (if book[0].id == id then Obligation(book[0], k) else 0) + Under(book[1..], id, k)
  }

  /** What leaves the book, or the stopped orders, when the row of `id` is cancelled. */
  function Held(s: State, id: OrderId, k: Key): int
    requires id in s.rows
  {
    Under(s.books.Of(s.rows[id].side), id, k) + Under(s.stopped, id, k)
  }

  /** What the cancellation moves from locked to available. */
  function Refunded(s: State, id: OrderId, k: Key): int
    requires id in s.rows
  {
    var row := s.rows[id];
    if k == RefundKey(row) && k in s.table then LockedFor(row, row.remaining) else 0
  }

  /** The row says what the order holds. */
  ghost predicate Agrees(s: State, id: OrderId)
    requires id in s.rows
  {
    forall k :: Refunded(s, id, k) == Held(s, id, k)
  }

  lemma {:induction false} RemoveObligations(book: seq<Order>, id: OrderId, k: Key)
    ensures Obligations(RemoveId(book, id), k) == Obligations(book, k) - Under(book, id, k)
  {
    if book != [] {
      RemoveObligations(book[1..], id, k);
      assert ([book[0]] + RemoveId(book[1..], id))[1..] == RemoveId(book[1..], id);
    }
  }

  lemma {:induction false} RemoveOwed(p: Pair, book: seq<Order>, id: OrderId)
    requires AllOwed(p, book)
    ensures AllOwed(p, RemoveId(book, id))
  {
    if book != [] {
      assert Owed(p, book[0]);
      RemoveOwed(p, book[1..], id);
    }
  }

  lemma {:induction false} RemoveDistinct(book: seq<Order>, id: OrderId)
    requires Distinct(book)
    ensures Distinct(RemoveId(book, id)) && Ids(RemoveId(book, id)) <= Ids(book)
  {
    if book != [] {
      RemoveDistinct(book[1..], id);
      assert ([book[0]] + RemoveId(book[1..], id))[1..] == RemoveId(book[1..], id);
    }
  }

  lemma {:induction false} UnderNonNegative(p: Pair, book: seq<Order>, id: OrderId, k: Key)
    requires AllOwed(p, book)
    ensures Under(book, id, k) >= 0
  {
    if book != [] {
      var o := book[0];
      assert Owed(p, o) && AllOwed(p, book[1..]);
      assert o.price.value * o.remaining >= 0;
      UnderNonNegative(p, book[1..], id, k);
    }
  }

  /** A cancellation takes the order's obligations from the accounts, and the refund from the
      table. */
  lemma CancelAccounts(s: State, id: OrderId, user: UserId, k: Key)
    requires Cancellable(s, id, user)
    ensures Accounts(CancelOrder(s, id, user), k) == Accounts(s, k) - Held(s, id, k)
    ensures LockedAt(CancelOrder(s, id, user).table, k) == LockedAt(s.table, k) - Refunded(s, id, k)
    ensures At(CancelOrder(s, id, user).table, k).available == At(s.table, k).available + Refunded(s, id, k)
  {
    RemoveObligations(s.books.Of(s.rows[id].side), id, k);
    RemoveObligations(s.stopped, id, k);
  }

  lemma CancelTotal(s: State, id: OrderId, user: UserId, a: Asset)
    ensures Total(CancelOrder(s, id, user).table, a) == Total(s.table, a)
  {
    if Cancellable(s, id, user) {
      var row := s.rows[id];
      var k := RefundKey(row);
      if k in s.table {
        TotalPut(s.table, k, Refund(s.table, k, LockedFor(row, row.remaining))[k], a);
      }
    }
  }

  lemma CancelOrderly(p: Pair, s: State, id: OrderId, user: UserId)
    requires Orderly(p, s)
    ensures Orderly(p, CancelOrder(s, id, user))
  {
    if Cancellable(s, id, user) {
      var side := s.rows[id].side;
      WithdrawKeepsValid(s.books, side, id);
      RemoveOwed(p, s.books.Of(side), id);
      RemoveOwed(p, s.stopped, id);
      RemoveDistinct(s.stopped, id);
    }
  }

  /** A cancellation keeps the exchange solvent exactly if the row still says what the order
      holds: the refund has no clamp and goes by the row alone. */
  lemma CancelExactly(p: Pair, t0: Table, s: State, id: OrderId, user: UserId)
    requires Solvent(p, t0, s)
    ensures Solvent(p, t0, CancelOrder(s, id, user)) <==> (Cancellable(s, id, user) ==> Agrees(s, id))
  {
    if Cancellable(s, id, user) {
      var s' := CancelOrder(s, id, user);
      CancelOrderly(p, s, id, user);
      forall a ensures Total(s'.table, a) == Total(t0, a) {
        CancelTotal(s, id, user, a);
      }
      forall k
        ensures LockedAt(s'.table, k) == LockedAt(t0, k) + Accounts(s', k) <==> Refunded(s, id, k) == Held(s, id, k)
        ensures At(s'.table, k).available == At(s.table, k).available + Refunded(s, id, k)
        ensures Held(s, id, k) >= 0
        ensures Refunded(s, id, k) == Held(s, id, k) ==> LockedAt(s'.table, k) >= Needed(s', k)
      {
        CancelAccounts(s, id, user, k);
        UnderNonNegative(p, s.books.Of(s.rows[id].side), id, k);
        UnderNonNegative(p, s.stopped, id, k);
        assert LockedAt(s.table, k) == LockedAt(t0, k) + Accounts(s, k) >= Needed(s, k);
      }
      if Agrees(s, id) {
        forall k ensures At(s'.table, k).available >= 0 {
          assert At(s.table, k).available >= 0 && Refunded(s, id, k) == Held(s, id, k);
        }
      }
    }
  }

  // ---- Whole runs --------------------------------------------------------------------------------

  datatype Step = Placed(order: Order) | Persisted(index: nat) | Withdrew(id: OrderId, user: UserId)

  /** Anything admissible and paid for may be placed under a new id, any pending match may be persisted next, and
      any order may be cancelled whose row says what it holds. */
  ghost predicate Enabled(p: Pair, s: State, step: Step) {
    match step
    case Placed(order) =>
      && Admissible(p, order) && order.id !in s.books.AllIds() + Ids(s.stopped)
      && (Lock(s.table, order).Some? ==> PaidFor(s, order))
    case Persisted(i) => i < |s.pending|
    case Withdrew(id, user) => Cancellable(s, id, user) ==> Agrees(s, id)
  }

  function Take(s: State, step: Step): State {
    match step
    case Placed(order) => Place(s, order)
    case Persisted(i) => if i < |s.pending| then Persist(s, i) else s
    case Withdrew(id, user) => CancelOrder(s, id, user)
  }

  ghost predicate Allowed(p: Pair, s: State, steps: seq<Step>)
    decreases steps
  {
    steps == [] || (Enabled(p, s, steps[0]) && Allowed(p, Take(s, steps[0]), steps[1..]))
  }

  function TakeAll(s: State, steps: seq<Step>): State
    decreases steps
  {
    if steps == [] then s else TakeAll(Take(s, steps[0]), steps[1..])
  }

  lemma StepKeepsSolvent(p: Pair, t0: Table, s: State, step: Step)
    requires Solvent(p, t0, s) && Enabled(p, s, step)
    ensures Solvent(p, t0, Take(s, step))
  {
    match step {
      case Placed(order) => PlaceKeepsSolvent(p, t0, s, order);
      case Persisted(i) => PersistKeepsSolvent(p, t0, s, i);
      case Withdrew(id, user) => CancelExactly(p, t0, s, id, user);
    }
  }

  lemma {:induction false} RunKeepsSolvent(p: Pair, t0: Table, s: State, steps: seq<Step>)
    requires Solvent(p, t0, s) && Allowed(p, s, steps)
    ensures Solvent(p, t0, TakeAll(s, steps))
    decreases steps
  {
    if steps != [] {
      StepKeepsSolvent(p, t0, s, steps[0]);
      RunKeepsSolvent(p, t0, Take(s, steps[0]), steps[1..]);
    }
  }

  /** Cancelling all of a user's orders is a run of single cancellations. */
  function Withdrawals(ids: seq<OrderId>, user: UserId): seq<Step> {
    if ids == [] then [] else [Withdrew(ids[0], user)] + Withdrawals(ids[1..], user)
  }

  lemma {:induction false} CancelAllIsRun(s: State, ids: seq<OrderId>, user: UserId)
    ensures CancelAll(s, ids, user) == TakeAll(s, Withdrawals(ids, user))
    decreases ids
  {
    if ids != [] {
      var steps := Withdrawals(ids, user);
      assert steps[0] == Withdrew(ids[0], user) && steps[1..] == Withdrawals(ids[1..], user);
      CancelAllIsRun(CancelOrder(s, ids[0], user), ids[1..], user);
    }
  }

  function Fresh(t0: Table): State { State(Books([], []), t0, map[], [], [], []) }

  /** Whole-run solvency.  From an empty book and any table without debts, after any run: every row
      has locked exactly what it started with, what its open and stopped orders need, what the
      pending matches will take, and the price improvement so far; nothing available is negative;
      every asset has the total it started with; and no pending match will meet the clamp. */
  lemma WholeRunSolvency(p: Pair, t0: Table, steps: seq<Step>)
    requires forall k :: k in t0 ==> t0[k].available >= 0 && t0[k].locked >= 0
    requires Allowed(p, Fresh(t0), steps)
    ensures var s := TakeAll(Fresh(t0), steps);
      && (forall k :: LockedAt(s.table, k) == LockedAt(t0, k)
            + Obligations(s.books.bids, k) + Obligations(s.books.asks, k) + Obligations(s.stopped, k)
            + JobsDecrease(s.pending, k) + Surpluses(s.history, k))
      && (forall k :: LockedAt(s.table, k) >= Obligations(s.books.bids, k) + Obligations(s.books.asks, k)
            + Obligations(s.stopped, k) + JobsDecrease(s.pending, k) >= 0)
      && (forall k :: At(s.table, k).available >= 0)
      && (forall a :: Total(s.table, a) == Total(t0, a))
      && (forall i, k :: 0 <= i < |s.pending| ==> LockedAt(s.table, k) >= JobDecrease(s.pending[i], k))
  {
    assert Separated(Books([], []), 0);
    assert Solvent(p, t0, Fresh(t0));
    RunKeepsSolvent(p, t0, Fresh(t0), steps);
    var s := TakeAll(Fresh(t0), steps);
    forall k ensures LockedAt(s.table, k) >= Needed(s, k) >= 0 {
      NeededNonNegative(p, s, k);
    }
    forall i, k | 0 <= i < |s.pending| ensures LockedAt(s.table, k) >= JobDecrease(s.pending[i], k) {
      NoClamp(p, t0, s, i, k);
    }
  }

  // ---- Runs that settle by updates alone -----------------------------------------------------------

  function TakeExisting(s: State, step: Step): State {
    match step
    case Persisted(i) => if i < |s.pending| then PersistExisting(s, i) else s
    case _ => Take(s, step)
  }

  function TakeAllExisting(s: State, steps: seq<Step>): State
    decreases steps
  {
    if steps == [] then s else TakeAllExisting(TakeExisting(s, steps[0]), steps[1..])
  }

  /** As before, and every match that is persisted credits rows that are there. */
  ghost predicate AllowedExisting(p: Pair, s: State, steps: seq<Step>)
    decreases steps
  {
    steps == [] ||
    (&& Enabled(p, s, steps[0])
     && (steps[0].Persisted? ==> CreditsLand(s.table, s.pending[steps[0].index].trades))
     && AllowedExisting(p, TakeExisting(s, steps[0]), steps[1..]))
  }

  lemma {:induction false} ExistingRunKeepsSolvent(p: Pair, t0: Table, s: State, steps: seq<Step>)
    requires Solvent(p, t0, s) && AllowedExisting(p, s, steps)
    ensures Solvent(p, t0, TakeAllExisting(s, steps))
    decreases steps
  {
    if steps != [] {
      if steps[0].Persisted? {
        PersistExistingExactly(p, t0, s, steps[0].index);
      } else {
        StepKeepsSolvent(p, t0, s, steps[0]);
      }
      ExistingRunKeepsSolvent(p, t0, TakeExisting(s, steps[0]), steps[1..]);
    }
  }

  /** Whole-run solvency of the path that only updates rows: as with inserts, if the credited rows are
      there whenever a match is persisted. */
  lemma WholeRunExisting(p: Pair, t0: Table, steps: seq<Step>)
    requires forall k :: k in t0 ==> t0[k].available >= 0 && t0[k].locked >= 0
    requires AllowedExisting(p, Fresh(t0), steps)
    ensures var s := TakeAllExisting(Fresh(t0), steps);
      && (forall k :: LockedAt(s.table, k) == LockedAt(t0, k) + Accounts(s, k) && LockedAt(s.table, k) >= Needed(s, k))
      && (forall k :: At(s.table, k).available >= 0)
      && (forall a :: Total(s.table, a) == Total(t0, a))
      && (forall i, k :: 0 <= i < |s.pending| ==> LockedAt(s.table, k) >= JobDecrease(s.pending[i], k))
  {
    assert Separated(Books([], []), 0);
    assert Solvent(p, t0, Fresh(t0));
    ExistingRunKeepsSolvent(p, t0, Fresh(t0), steps);
    var s := TakeAllExisting(Fresh(t0), steps);
    forall i, k | 0 <= i < |s.pending| ensures LockedAt(s.table, k) >= JobDecrease(s.pending[i], k) {
      NoClamp(p, t0, s, i, k);
    }
  }
}
