/** The ledger as one user sees it, over the fields of orders and trades alone: who pays and who is paid
    in a trade, what a user has of an asset after a whole run, and which orders it can therefore place.
    (crates/api/src/routes.rs, crates/gateway/src/worker.rs) */
module UserAccounts {
  import opened Types
  import opened Books
  import opened Ledger
  import opened LedgerLaws
  import opened Exchange
  import opened Solvency
  import opened SolvencyRuns

  // ---- Who pays, who is paid -----------------------------------------------------------------------

  /** What a user receives of an asset: the bought base asset, or the price of what it sold. */
  function Received(trades: seq<Trade>, user: UserId, asset: Asset): int {
    if trades == [] then 0
    else
      var t := trades[0];
      (if t.buyer == user && t.pair.base == asset then t.quantity else 0)
      + (if t.seller == user && t.pair.quote == asset then t.price * t.quantity else 0)
      + Received(trades[1..], user, asset)
  }

  /** What a user gives of an asset: the sold base asset, or the price of what it bought. */
  function Given(trades: seq<Trade>, user: UserId, asset: Asset): int {
    if trades == [] then 0
    else
      var t := trades[0];
      (if t.seller == user && t.pair.base == asset then t.quantity else 0)
      + (if t.buyer == user && t.pair.quote == asset then t.price * t.quantity else 0)
      + Given(trades[1..], user, asset)
  }

  lemma {:induction false} DeltasByUser(trades: seq<Trade>, user: UserId, asset: Asset)
    ensures Increase(trades, Key(user, asset)) == Received(trades, user, asset)
    ensures Decrease(trades, Key(user, asset)) == Given(trades, user, asset)
  {
    if trades != [] {
      DeltasByUser(trades[1..], user, asset);
    }
  }

  /** One settled trade, row by row, with missing rows inserted for what they are credited.  The buyer gets
      the quantity, and its price leaves the buyer's lock; the seller gets the price, and the quantity
      leaves the seller's lock; no other row changes. */
  lemma TradeByUser(t: Table, trade: Trade)
    requires trade.buyer != trade.seller && trade.pair.base != trade.pair.quote
    requires trade.quantity >= 0 && trade.price * trade.quantity >= 0
    ensures var after, q, cost := SettleTrade(t, trade), trade.quantity, trade.price * trade.quantity;
      var bb, bq := Key(trade.buyer, trade.pair.base), Key(trade.buyer, trade.pair.quote);
      var sb, sq := Key(trade.seller, trade.pair.base), Key(trade.seller, trade.pair.quote);
      && At(after, bb) == Balance(At(t, bb).available + q, At(t, bb).locked)
      && At(after, bq) == Balance(At(t, bq).available, Max(At(t, bq).locked - cost, 0))
      && At(after, sb) == Balance(At(t, sb).available, Max(At(t, sb).locked - q, 0))
      && At(after, sq) == Balance(At(t, sq).available + cost, At(t, sq).locked)
      && bb in after && sq in after
      && forall k :: k !in {bb, bq, sb, sq} ==> At(after, k) == At(t, k) && (k in after <==> k in t)
  {
  }

  /** The aggregated statements of any trades, for any user and asset, with missing rows inserted or not. */
  lemma TradesByUser(t: Table, trades: seq<Trade>, user: UserId, asset: Asset)
    requires Sound(trades) && NoDebt(t)
    ensures var k, received, given := Key(user, asset), Received(trades, user, asset), Given(trades, user, asset);
      && At(ApplyDeltas(t, trades), k) == Balance(At(t, k).available + received, Max(At(t, k).locked - given, 0))
      && At(UpdateExisting(t, trades), k) ==
           (if k in t then Balance(t[k].available + received, Max(t[k].locked - given, 0)) else Balance(0, 0))
  {
    var k := Key(user, asset);
    DeltasByUser(trades, user, asset);
    DecreaseSound(trades, k);
    if k !in Touched(trades) {
      Untouched(trades, k);
    }
  }

  // ---- Whole runs ------------------------------------------------------------------------------------

  function Both(t: Table, user: UserId, asset: Asset): int {
    At(t, Key(user, asset)).available + At(t, Key(user, asset)).locked
  }

  /** What the matches moved to the user. */
  function Net(jobs: seq<Job>, user: UserId, asset: Asset): int {
    Received(AllTrades(jobs), user, asset) - Given(AllTrades(jobs), user, asset)
  }

  lemma {:induction false} MovedConcat(a: seq<Trade>, b: seq<Trade>, user: UserId, asset: Asset)
    ensures Received(a + b, user, asset) == Received(a, user, asset) + Received(b, user, asset)
    ensures Given(a + b, user, asset) == Given(a, user, asset) + Given(b, user, asset)
  {
    if a == [] {
      assert a + b == b;
    } else {
      assert (a + b)[0] == a[0] && (a + b)[1..] == a[1..] + b;
      MovedConcat(a[1..], b, user, asset);
    }
  }

  lemma NetConcat(a: seq<Job>, b: seq<Job>, user: UserId, asset: Asset)
    ensures Net(a + b, user, asset) == Net(a, user, asset) + Net(b, user, asset)
  {
    TradesConcat(a, b);
    MovedConcat(AllTrades(a), AllTrades(b), user, asset);
  }

  lemma NetOne(job: Job, user: UserId, asset: Asset)
    ensures Net([job], user, asset) == Received(job.trades, user, asset) - Given(job.trades, user, asset)
  {
    assert [job][0] == job && [job][1..] == [];
    assert AllTrades([job]) == job.trades + AllTrades([]) == job.trades;
  }

  /** What the user started with, plus what persisted trades brought, less what they took. */
  ghost predicate Balanced(t0: Table, s: State, user: UserId, asset: Asset) {
    Both(s.table, user, asset)
    == Both(t0, user, asset) + Net(s.history, user, asset) - Net(s.pending, user, asset)
  }

  lemma PlaceBalanced(t0: Table, s: State, order: Order, user: UserId, asset: Asset)
    requires Balanced(t0, s, user, asset)
    ensures Balanced(t0, Place(s, order), user, asset)
  {
    if Lock(s.table, order).Some? {
      var job := JobOf(s.books, order);
      assert Place(s, order).history == s.history + [job] && Place(s, order).pending == s.pending + [job];
      NetConcat(s.history, [job], user, asset);
      NetConcat(s.pending, [job], user, asset);
    }
  }

  lemma PersistBalanced(p: Pair, t0: Table, s: State, i: nat, user: UserId, asset: Asset)
    requires Solvent(p, t0, s) && i < |s.pending| && Balanced(t0, s, user, asset)
    ensures Balanced(t0, Persist(s, i), user, asset)
  {
    var near, job, far := s.pending[..i], s.pending[i], s.pending[i + 1..];
    assert s.pending == near + [job] + far;
    NetConcat(near + [job], far, user, asset);
    NetConcat(near, [job], user, asset);
    NetConcat(near, far, user, asset);
    NetOne(job, user, asset);
    DeltasByUser(job.trades, user, asset);
    PersistMoves(p, t0, s, i, Key(user, asset));
  }

  /** Persisting meets no clamp, so the row moves by what was traded, and the release stays within it. */
  lemma PersistMoves(p: Pair, t0: Table, s: State, i: nat, k: Key)
    requires Solvent(p, t0, s) && i < |s.pending|
    ensures var job, t := s.pending[i], Persist(s, i).table;
      At(t, k).available + At(t, k).locked
      == At(s.table, k).available + At(s.table, k).locked + Increase(job.trades, k) - Decrease(job.trades, k)
  {
    var job := s.pending[i];
    assert SoundJobs([job]);
    forall k ensures LockedAt(s.table, k) >= JobDecrease(job, k) && LockedAt(s.table, k) >= 0 {
      NoClamp(p, t0, s, i, k);
    }
    assert NoDebt(s.table) by {
      assert forall k :: k in s.table ==> LockedAt(s.table, k) == s.table[k].locked;
    }
    PersistJobExact(s.table, job);
    var after := PersistJob(s.table, job);
    assert LockedAt(after, k) == LockedAt(s.table, k) - JobDecrease(job, k);
    assert At(after, k).available == At(s.table, k).available + JobIncrease(job, k);
  }

  lemma CancelBalanced(t0: Table, s: State, id: OrderId, owner: UserId, user: UserId, asset: Asset)
    requires Balanced(t0, s, user, asset)
    ensures Balanced(t0, CancelOrder(s, id, owner), user, asset)
  {
    if Cancellable(s, id, owner) {
      CancelAccounts(s, id, owner, Key(user, asset));
    }
  }

  lemma {:induction false} RunKeepsBalanced(p: Pair, t0: Table, s: State, steps: seq<Step>, user: UserId, asset: Asset)
    requires Solvent(p, t0, s) && Allowed(p, s, steps) && Balanced(t0, s, user, asset)
    ensures Balanced(t0, TakeAll(s, steps), user, asset)
    decreases steps
  {
    if steps != [] {
      match steps[0] {
        case Placed(order) => PlaceBalanced(t0, s, order, user, asset);
        case Persisted(i) => PersistBalanced(p, t0, s, i, user, asset);
        case Withdrew(id, owner) => CancelBalanced(t0, s, id, owner, user, asset);
      }
      StepKeepsSolvent(p, t0, s, steps[0]);
      RunKeepsBalanced(p, t0, Take(s, steps[0]), steps[1..], user, asset);
    }
  }

  lemma FreshIsSolvent(p: Pair, t0: Table)
    requires forall k :: k in t0 ==> t0[k].available >= 0 && t0[k].locked >= 0
    ensures Solvent(p, t0, Fresh(t0))
  {
    assert Separated(Books([], []), 0);
  }

  /** Over every run, each user has of each asset what it started with, plus what persisted trades brought it,
      less what they took: and once nothing is pending, all trades. */
  lemma UserAccount(p: Pair, t0: Table, steps: seq<Step>, user: UserId, asset: Asset)
    requires forall k :: k in t0 ==> t0[k].available >= 0 && t0[k].locked >= 0
    requires Allowed(p, Fresh(t0), steps)
    ensures var s, all := TakeAll(Fresh(t0), steps), AllTrades(TakeAll(Fresh(t0), steps).history);
      && Both(s.table, user, asset)
         == Both(t0, user, asset) + Net(s.history, user, asset) - Net(s.pending, user, asset)
      && (s.pending == [] ==>
            Both(s.table, user, asset) == Both(t0, user, asset) + Received(all, user, asset) - Given(all, user, asset))
  {
    FreshIsSolvent(p, t0);
    RunKeepsBalanced(p, t0, Fresh(t0), steps, user, asset);
  }

  // ---- Which orders are accepted -----------------------------------------------------------------------

  /** What an order takes out of what is available: price times quantity to buy, the quantity to sell. */
  function Asked(order: Order): int {
    if order.side.Sell? then order.quantity
    else match order.price case Some(price) => price * order.quantity case None => 0
  }

  function AskedOf(order: Order): Asset { if order.side.Buy? then order.pair.quote else order.pair.base }

  /** An order is accepted if and only if its user has a row with that much available, whatever is locked in
      it; then that much moves to locked, and no other row changes. */
  lemma LockExactly(t: Table, order: Order)
    ensures var k := Key(order.user, AskedOf(order));
      && (Lock(t, order).Some? <==> k in t && t[k].available >= Asked(order))
      && (Lock(t, order).Some? ==>
            Lock(t, order).value
            == t[k := Balance(t[k].available - Asked(order), t[k].locked + Asked(order))])
  {
  }

  /** Placing an order queues its match if and only if that much is available, and otherwise changes nothing. */
  lemma PlacedIfAvailable(s: State, order: Order)
    ensures var k, s' := Key(order.user, AskedOf(order)), Place(s, order);
      if k in s.table && s.table[k].available >= Asked(order)
      then s'.pending == s.pending + [JobOf(s.books, order)] && s'.books == Submit(s.books, order)
      else s' == s
  {
    LockExactly(s.table, order);
  }

  /** What a user can still spend of an asset, from its trades and its orders: what was available at the
      start, plus what persisted trades moved, less what orders and pending matches need, less past price
      improvement. */
  function Spendable(t0: Table, s: State, user: UserId, asset: Asset): int {
    At(t0, Key(user, asset)).available + Net(s.history, user, asset) - Net(s.pending, user, asset)
    - Needed(s, Key(user, asset)) - Surpluses(s.history, Key(user, asset))
  }

  /** After any allowed run, an order's match is queued if and only if the user has a row for what the order
      asks and can still spend that much. */
  lemma AcceptedExactly(p: Pair, t0: Table, steps: seq<Step>, order: Order)
    requires forall k :: k in t0 ==> t0[k].available >= 0 && t0[k].locked >= 0
    requires Allowed(p, Fresh(t0), steps)
    ensures var s, k := TakeAll(Fresh(t0), steps), Key(order.user, AskedOf(order));
      && At(s.table, k).available == Spendable(t0, s, order.user, AskedOf(order))
      && (|Place(s, order).pending| == |s.pending| + 1 <==>
            k in s.table && Spendable(t0, s, order.user, AskedOf(order)) >= Asked(order))
      && (|Place(s, order).pending| != |s.pending| + 1 ==> Place(s, order) == s)
  {
    var s, k := TakeAll(Fresh(t0), steps), Key(order.user, AskedOf(order));
    UserAccount(p, t0, steps, order.user, AskedOf(order));
    WholeRunSolvency(p, t0, steps);
    assert LockedAt(s.table, k) == LockedAt(t0, k) + Needed(s, k) + Surpluses(s.history, k);
    PlacedIfAvailable(s, order);
  }
}
