/** Short runs outside the conditions of the theorems: a cancellation that overtakes the persistence
    of a fill mints a unit, so does a market buy, a negative price frees what it should lock, and a
    cold start brings back an order that a match persisted too early filled, or that self-trade
    prevention stopped.
    (crates/api/src/worker.rs, crates/gateway/src/worker.rs) */
module Races {
  import opened Types
  import opened Engine
  import opened SortedBook
  import opened Books
  import opened Ledger
  import opened LedgerLaws
  import opened Exchange
  import opened SolvencyRuns
  import opened Recovery
  import opened RecoveryRuns

  const PAIR := Pair(1, 0)
  const SELL := Order(10, 1, PAIR, Side.Sell, Limit, GTC, Some(100), 1, 1, New, StpNone)
  const BUY := Order(11, 2, PAIR, Side.Buy, Limit, GTC, Some(100), 1, 1, New, StpNone)
  const TRADE := Trade(PAIR, 11, 10, 2, 1, 100, 1)

  /** The seller has one unit of the base asset, the buyer 100 of the quote asset. */
  const TABLE: Table := map[Key(1, 1) := Balance(1, 0), Key(2, 0) := Balance(100, 0)]

  const LOCKED: Table := map[Key(1, 1) := Balance(0, 1), Key(2, 0) := Balance(100, 0)]

  const LOCKED_BOTH: Table := map[Key(1, 1) := Balance(0, 1), Key(2, 0) := Balance(0, 100)]

  /** What one trade does, spelled out. */
  lemma OneTrade(trade: Trade, k: Key)
    ensures Decrease([trade], k) == TradeDecrease(trade, k) && Increase([trade], k) == TradeIncrease(trade, k)
    ensures Touched([trade]) == TradeKeys(trade)
  {
    assert [trade][0] == trade && [trade][1..] == [];
    assert Decrease([], k) == 0 && Increase([], k) == 0 && Touched([]) == {};
  }

  lemma OneTradeRow(t: Table, trade: Trade, k: Key)
    requires k in TradeKeys(trade)
    ensures At(ApplyDeltas(t, [trade]), k)
         == Balance(At(t, k).available + TradeIncrease(trade, k),
                    if k in t then Max(t[k].locked - TradeDecrease(trade, k), 0) else 0)
  {
    OneTrade(trade, k);
  }

  lemma OneFill(rows: Rows, taker: Order, trade: Trade)
    ensures FillRows(rows, taker, [trade]) == FillRow(rows, MakerId(taker, trade), trade.quantity)
  {
    assert [trade][0] == trade && [trade][1..] == [];
    var filled := FillRow(rows, MakerId(taker, trade), trade.quantity);
    assert FillRows(filled, taker, []) == filled;
  }

  lemma SellRests()
    ensures Lock(TABLE, SELL) == Some(LOCKED)
    ensures Match(SELL, []) == Outcome(MatchResult([], [], SELL, []), [])
    ensures StoppedBy(SELL, []) == []
    ensures Submit(Books([], []), SELL) == Books([], [SELL])
  {
    assert TABLE[Key(1, 1) := Balance(0, 1)] == LOCKED;
    assert Walk(SELL, []) == Stay(SELL, []);
    assert Match(SELL, []).result.incoming == SELL;
    assert Insert([], SELL) == [SELL] && RemoveId([], 10) == [];
    assert ApplyUpdates([], []) == [];
  }

  lemma BuyTakes()
    ensures Lock(LOCKED, BUY) == Some(LOCKED_BOTH)
    ensures Match(BUY, [SELL]).result == MatchResult([TRADE], [Reduce(SELL, 1)], Reduce(BUY, 1), [])
    ensures StoppedBy(BUY, [SELL]) == []
    ensures Submit(Books([], [SELL]), BUY) == Books([], [])
  {
    assert LOCKED[Key(2, 0) := Balance(0, 100)] == LOCKED_BOTH;
    assert [SELL][1..] == [];
    var next := Next(BUY, SELL);
    assert WalkStopped(BUY, [SELL]) == WalkStopped(next, []) == [];
    assert Walk(next, []) == Stay(next, []);
    assert Walk(BUY, [SELL]) == Front(BUY, SELL, Walk(next, []));
    assert Match(BUY, [SELL]).result.bookUpdates == [Reduce(SELL, 1)];
    assert [Reduce(SELL, 1)][1..] == [];
    assert RemoveId([SELL], 10) == RemoveId([SELL][1..], 10) == [];
    assert ApplyUpdate([SELL], Reduce(SELL, 1)) == [];
    assert ApplyUpdates([SELL], [Reduce(SELL, 1)]) == [];
  }

  function AfterBoth(): State {
    var resting := Job(SELL, []);
    var taking := Job(Reduce(BUY, 1), [TRADE]);
    State(Books([], []), LOCKED_BOTH, map[], [resting, taking], [], [resting, taking])
  }

  lemma BothPlaced()
    ensures TakeAll(Fresh(TABLE), [Placed(SELL), Placed(BUY)]) == AfterBoth()
  {
    SellRests();
    BuyTakes();
    var s1 := Place(Fresh(TABLE), SELL);
    assert s1 == State(Books([], [SELL]), LOCKED, map[], [Job(SELL, [])], [], [Job(SELL, [])]);
    assert Place(s1, BUY) == AfterBoth();
    var steps := [Placed(SELL), Placed(BUY)];
    assert steps[1..] == [Placed(BUY)] && steps[1..][1..] == [];
    assert TakeAll(s1, [Placed(BUY)]) == TakeAll(Place(s1, BUY), []);
  }

  function Filled(): Order { Reduce(BUY, 1) }

  /** The second match is persisted first, although it filled the order of the first: its fill finds no
      row, the first match then inserts the row as open, and a cold start brings the filled order back. */
  lemma OutOfOrderResurrects() returns (selected: seq<Order>)
    ensures TakeAll(Fresh(TABLE), [Placed(SELL), Placed(BUY)]) == AfterBoth()
    ensures !Harmless(AfterBoth(), 1)
    ensures var s := Persist(Persist(AfterBoth(), 1), 0);
      && s.pending == [] && s.stopped == [] && s.books == Books([], [])
      && Selected(s.rows, selected)
      && Seed(Books([], []), selected) == Books([], [SELL])
  {
    selected := [SELL];
    BothPlaced();
    LateMatchFirst();
  }

  lemma LateMatchFirst()
    ensures !Harmless(AfterBoth(), 1)
    ensures var s := Persist(Persist(AfterBoth(), 1), 0);
      && s.pending == [] && s.stopped == [] && s.books == Books([], [])
      && Selected(s.rows, [SELL])
      && Seed(Books([], []), [SELL]) == Books([], [SELL])
  {
    var s0 := AfterBoth();
    var s1 := Persist(s0, 1);
    LateRows();
    assert s1.pending == [Job(SELL, [])];
    assert [TRADE][1..] == [] && FilledBy(Side.Buy, [TRADE], 10) == 1 + FilledBy(Side.Buy, [], 10);
    assert JobFilled(s0.pending[1], s0.pending[0].order.id) != 0;
    assert Persist(s1, 0).pending == [];
    SellSelected(map[11 := Filled(), 10 := SELL]);
  }

  lemma LateRows()
    ensures Persist(AfterBoth(), 1).rows == map[11 := Filled()]
    ensures Persist(Persist(AfterBoth(), 1), 0).rows == map[11 := Filled(), 10 := SELL]
  {
    OneFill(map[11 := Filled()], Filled(), TRADE);
    assert InsertRow(map[], Filled()) == map[11 := Filled()];
    var rows := PersistRows(map[], Job(Filled(), [TRADE]));
    assert rows == map[11 := Filled()];
    assert InsertRow(rows, SELL) == map[11 := Filled(), 10 := SELL];
    assert FillRows(InsertRow(rows, SELL), SELL, []) == InsertRow(rows, SELL);
    assert PersistRows(rows, Job(SELL, [])) == map[11 := Filled(), 10 := SELL];
  }

  /** Rows of which only the sell order's is open. */
  lemma SellSelected(rows: Rows)
    requires 10 in rows && rows[10] == SELL && forall id :: id in rows && id != 10 ==> !rows[id].IsOpen()
    ensures Selected(rows, [SELL]) && Seed(Books([], []), [SELL]) == Books([], [SELL])
  {
    assert [SELL][0] == SELL && [SELL][1..] == [];
    assert Distinct([]) && Ids([]) == {};
    forall id ensures Find([SELL], id) == if id == 10 then Some(SELL) else None {
      assert Find([], id) == None;
    }
    assert RemoveId([], 10) == [] && Insert([], SELL) == [SELL];
    var b := Books([], [SELL]);
    assert Seed(b, []) == b;
  }

  // ---- A cancellation overtakes a fill ---------------------------------------------------------------

  /** Everything of the base asset that the two users have. */
  function Base(t: Table): int {
    At(t, Key(1, 1)).available + At(t, Key(1, 1)).locked + At(t, Key(2, 1)).available + At(t, Key(2, 1)).locked
  }

  /** The sell order's row is there, its fill is not. */
  function FillPending(): State {
    Persist(AfterBoth(), 0)
  }

  lemma FillIsPending()
    ensures FillPending().rows == map[10 := SELL] && FillPending().table == LOCKED_BOTH
    ensures FillPending().pending == [Job(Filled(), [TRADE])]
  {
    assert InsertRow(map[], SELL) == map[10 := SELL];
    assert FillRows(map[10 := SELL], SELL, []) == map[10 := SELL];
    assert PersistRows(map[], Job(SELL, [])) == map[10 := SELL];
    assert Touched([]) == {};
    assert ApplyDeltas(LOCKED_BOTH, []) == LOCKED_BOTH;
    assert PersistJob(LOCKED_BOTH, Job(SELL, [])) == LOCKED_BOTH;
  }

  /** The sell order is cancelled after its fill and before the fill is persisted: the seller gets
      the unit back, the clamp hides that it is gone, and the buyer gets it too. */
  lemma CancelRaceMints()
    ensures TakeAll(Fresh(TABLE), [Placed(SELL), Placed(BUY)]) == AfterBoth()
    ensures Cancellable(FillPending(), SELL.id, SELL.user)
    ensures Base(Persist(CancelOrder(FillPending(), SELL.id, SELL.user), 0).table) == 2
    ensures Base(TABLE) == 1
  {
    BothPlaced();
    CancelledAfterFill();
  }

  lemma CancelledAfterFill()
    ensures Cancellable(FillPending(), SELL.id, SELL.user)
    ensures Base(Persist(CancelOrder(FillPending(), SELL.id, SELL.user), 0).table) == 2
  {
    FillIsPending();
    var s := CancelOrder(FillPending(), SELL.id, SELL.user);
    var t := map[Key(1, 1) := Balance(1, 0), Key(2, 0) := Balance(0, 100)];
    assert LockedFor(SELL, 1) == 1 && RefundKey(SELL) == Key(1, 1);
    assert s.table == t;
    assert !Releases(Filled());
    assert Persist(s, 0).table == ApplyDeltas(t, [TRADE]);
    OneTradeRow(t, TRADE, Key(1, 1));
    OneTradeRow(t, TRADE, Key(2, 1));
    assert TradeDecrease(TRADE, Key(1, 1)) == 1 && TradeIncrease(TRADE, Key(1, 1)) == 0;
    assert TradeDecrease(TRADE, Key(2, 1)) == 0 && TradeIncrease(TRADE, Key(2, 1)) == 1;
  }

  // ---- A market buy ------------------------------------------------------------------------------------

  /** A market buy of a user who has nothing. */
  const MARKET_BUY := Order(12, 3, PAIR, Side.Buy, Market, IOC, None, 1, 1, New, StpNone)

  const MARKET_TRADE := Trade(PAIR, 12, 10, 3, 1, 100, 1)

  lemma MarketBuyTakes()
    ensures Match(MARKET_BUY, [SELL]).result.incoming == Reduce(MARKET_BUY, 1)
    ensures Match(MARKET_BUY, [SELL]).result.trades == [MARKET_TRADE]
  {
    assert [SELL][1..] == [];
    var next := Next(MARKET_BUY, SELL);
    assert Walk(next, []) == Stay(next, []);
    assert Walk(MARKET_BUY, [SELL]) == Front(MARKET_BUY, SELL, Walk(next, []));
  }

  /** Everything of the quote asset that the two users have. */
  function Quote(t: Table): int {
    At(t, Key(1, 0)).available + At(t, Key(1, 0)).locked + At(t, Key(3, 0)).available + At(t, Key(3, 0)).locked
  }

  /** A market buy locks nothing, so its settlement meets the clamp: the seller is paid 100 that the
      buyer never had. */
  lemma MarketBuyMints(t: Table, s: State)
    requires t == map[Key(1, 1) := Balance(0, 1), Key(3, 0) := Balance(0, 0)]
    requires s.table == t && s.books == Books([], [SELL]) && s.pending == []
    ensures var s' := Place(s, MARKET_BUY);
      && |s'.pending| == 1
      && Quote(t) == 0 && Quote(Persist(s', 0).table) == 100
  {
    MarketBuyTakes();
    var s' := Place(s, MARKET_BUY);
    assert t[Key(3, 0) := Balance(0, 0)] == t;
    assert s'.table == t && s'.pending == [Job(Reduce(MARKET_BUY, 1), [MARKET_TRADE])];
    assert !Releases(Reduce(MARKET_BUY, 1));
    assert Persist(s', 0).table == ApplyDeltas(t, [MARKET_TRADE]);
    OneTradeRow(t, MARKET_TRADE, Key(3, 0));
    OneTradeRow(t, MARKET_TRADE, Key(1, 0));
    assert TradeDecrease(MARKET_TRADE, Key(3, 0)) == 100 && TradeIncrease(MARKET_TRADE, Key(3, 0)) == 0;
    assert TradeDecrease(MARKET_TRADE, Key(1, 0)) == 0 && TradeIncrease(MARKET_TRADE, Key(1, 0)) == 100;
  }

  // ---- A stopped order ------------------------------------------------------------------------------------

  /** The seller buys with CancelMaker, and does not want to rest. */
  const OWN_BUY := Order(13, 1, PAIR, Side.Buy, Limit, IOC, Some(100), 1, 1, New, CancelMaker)

  lemma OwnBuyStops()
    ensures Match(OWN_BUY, [SELL]).result == MatchResult([], [Cancel(SELL)], Cancel(OWN_BUY), [Cancel(SELL)])
    ensures StoppedBy(OWN_BUY, [SELL]) == [SELL]
    ensures Submit(Books([], [SELL]), OWN_BUY) == Books([], [])
  {
    assert [SELL][1..] == [];
    assert Next(OWN_BUY, SELL) == OWN_BUY;
    assert Walk(OWN_BUY, []) == Stay(OWN_BUY, []);
    assert Walk(OWN_BUY, [SELL]) == Front(OWN_BUY, SELL, Walk(OWN_BUY, []));
    assert WalkStopped(OWN_BUY, []) == [] && WalkStopped(OWN_BUY, [SELL]) == [SELL] + WalkStopped(OWN_BUY, []);
    assert [Cancel(SELL)][1..] == [] && RemoveId([SELL], 10) == RemoveId([SELL][1..], 10) == [];
    assert ApplyUpdate([SELL], Cancel(SELL)) == [] && ApplyUpdates([], []) == [];
    assert ApplyUpdates([SELL], [Cancel(SELL)]) == [];
  }

  const OWN_TABLE: Table := map[Key(1, 1) := Balance(1, 0), Key(1, 0) := Balance(100, 0)]

  const SELL_LOCKED: Table := map[Key(1, 1) := Balance(0, 1), Key(1, 0) := Balance(100, 0)]

  /** The sell order rests, and its row is there. */
  function SellPersisted(): State {
    State(Books([], [SELL]), SELL_LOCKED, map[10 := SELL], [], [], [Job(SELL, [])])
  }

  lemma SellIsPersisted()
    ensures TakeAll(Fresh(OWN_TABLE), [Placed(SELL), Persisted(0)]) == SellPersisted()
    ensures InOrder(Fresh(OWN_TABLE), [Placed(SELL), Persisted(0)])
  {
    SellRests();
    var s0 := Fresh(OWN_TABLE);
    assert OWN_TABLE[Key(1, 1) := Balance(0, 1)] == SELL_LOCKED;
    var s1 := State(Books([], [SELL]), SELL_LOCKED, map[], [Job(SELL, [])], [], [Job(SELL, [])]);
    assert Place(s0, SELL) == s1;
    assert Touched([]) == {} && ApplyDeltas(SELL_LOCKED, []) == SELL_LOCKED;
    assert PersistJob(SELL_LOCKED, Job(SELL, [])) == SELL_LOCKED;
    assert InsertRow(map[], SELL) == map[10 := SELL];
    assert FillRows(map[10 := SELL], SELL, []) == map[10 := SELL];
    assert PersistRows(map[], Job(SELL, [])) == map[10 := SELL];
    assert Persist(s1, 0) == SellPersisted();
    TwoSteps(s0, Placed(SELL), Persisted(0));
    assert Settled(s0, 10) == None;
    assert Harmless(s1, 0);
  }

  lemma TwoSteps(s: State, first: Step, second: Step)
    ensures TakeAll(s, [first, second]) == Take(Take(s, first), second)
    ensures InOrder(s, [first, second]) <==> InOrder(s, [first]) && InOrder(Take(s, first), [second])
  {
    assert [first, second][1..] == [second] && [second][1..] == [] && [first][1..] == [];
    var s2 := Take(Take(s, first), second);
    assert TakeAll(s2, []) == s2;
    assert TakeAll(Take(s, first), [second]) == TakeAll(s2, []);
  }

  function OwnStopped(): State {
    State(Books([], []), SELL_LOCKED, map[10 := SELL, 13 := Cancel(OWN_BUY)], [], [SELL],
          [Job(SELL, []), Job(Cancel(OWN_BUY), [])])
  }

  lemma OwnReleased(locked: Table)
    requires locked == map[Key(1, 1) := Balance(0, 1), Key(1, 0) := Balance(0, 100)]
    ensures PersistJob(locked, Job(Cancel(OWN_BUY), [])) == SELL_LOCKED
  {
    var taker := Cancel(OWN_BUY);
    assert Touched([]) == {} && ApplyDeltas(locked, []) == locked;
    assert Releases(taker) && LockedFor(taker, 1) == 100;
    assert locked[Key(1, 0) := Balance(100, 0)] == SELL_LOCKED;
  }

  lemma OwnRowWritten()
    ensures PersistRows(map[10 := SELL], Job(Cancel(OWN_BUY), [])) == map[10 := SELL, 13 := Cancel(OWN_BUY)]
  {
    var taker := Cancel(OWN_BUY);
    var rows := map[10 := SELL, 13 := taker];
    assert InsertRow(map[10 := SELL], taker) == rows && FillRows(rows, taker, []) == rows;
    assert rows[13 := rows[13].(remaining := taker.remaining, status := taker.status)] == rows;
  }

  /** The locked quote comes back when the cancelled buy is persisted. */
  lemma OwnIsStopped()
    ensures TakeAll(SellPersisted(), [Placed(OWN_BUY), Persisted(0)]) == OwnStopped()
    ensures InOrder(SellPersisted(), [Placed(OWN_BUY), Persisted(0)])
  {
    OwnBuyStops();
    var s0, taker := SellPersisted(), Cancel(OWN_BUY);
    var locked: Table := map[Key(1, 1) := Balance(0, 1), Key(1, 0) := Balance(0, 100)];
    assert LockedFor(OWN_BUY, 1) == 100 && SELL_LOCKED[Key(1, 0) := Balance(0, 100)] == locked;
    var s1 := State(Books([], []), locked, map[10 := SELL], [Job(taker, [])], [SELL], [Job(SELL, []), Job(taker, [])]);
    assert Place(s0, OWN_BUY) == s1;
    OwnReleased(locked);
    OwnRowWritten();
    assert Persist(s1, 0) == OwnStopped();
    TwoSteps(s0, Placed(OWN_BUY), Persisted(0));
    assert Settled(s0, 13) == None;
    assert Harmless(s1, 0);
  }

  /** One run: the sell order rests and is persisted, self-trade prevention stops it, and that match is
      persisted too.  Nothing is live, and a cold start brings the sell order back. */
  lemma StoppedComesBack()
    ensures var s := TakeAll(Fresh(OWN_TABLE), [Placed(SELL), Persisted(0)]);
      TakeAll(s, [Placed(OWN_BUY), Persisted(0)]) == OwnStopped()
    ensures OwnStopped().pending == [] && OwnStopped().stopped == [SELL] && OwnStopped().books == Books([], [])
    ensures Selected(OwnStopped().rows, [SELL]) && Seed(Books([], []), [SELL]) == Books([], [SELL])
  {
    SellIsPersisted();
    OwnIsStopped();
    OwnRows();
  }

  lemma OwnRows()
    ensures Selected(OwnStopped().rows, [SELL]) && Seed(Books([], []), [SELL]) == Books([], [SELL])
  {
    SellSelected(OwnStopped().rows);
  }

  /** Locking takes nothing away from what is available exactly if the amount is not negative, and
      nothing in the source rejects a negative price: a buy at one is always accepted, and frees. */
  lemma NegativePriceFrees(t: Table, order: Order)
    requires NewOrder(order) && order.side.Buy? && order.price.Some? && LockKey(order) in t
    requires t[LockKey(order)].available >= 0
    ensures order.price.value < 0 ==> Lock(t, order).Some?
    ensures Lock(t, order).Some? ==>
      (At(Lock(t, order).value, LockKey(order)).available > t[LockKey(order)].available <==> order.price.value < 0)
  {
    if order.price.value < 0 {
      assert order.price.value * order.quantity < 0;
    } else {
      assert order.price.value * order.quantity >= 0;
    }
  }
}
