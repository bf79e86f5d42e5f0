/** What persisting does to the totals, locked or not.  A clamp that fires creates units: persisting the
    pending matches keeps every total exactly if what they take is locked.  What that means for a
    market buy, which locks nothing.  (crates/api/src/routes.rs, crates/gateway/src/worker.rs) */
module Draining {
  import opened Types
  import opened Engine
  import opened MatchLaws
  import opened PriorityLaws
  import opened EquivalenceLaws
  import opened SortedBook
  import opened Books
  import opened Ledger
  import opened LedgerLaws
  import opened Exchange
  import opened Solvency
  import opened SolvencyRuns

  // ---- One job -------------------------------------------------------------------------------------

  /** What a statement asks for beyond what is locked, it creates. */
  lemma UpsertCreates(t: Table, k: Key, d: Delta, a: Asset)
    requires d.decrease >= 0 && LockedAt(t, k) >= 0
    ensures Total(Ledger.Upsert(t, k, d), a)
         == Total(t, a) + if k.asset == a then d.increase - Min(d.decrease, LockedAt(t, k)) else 0
  {
    TotalPut(t, k, Ledger.Upsert(t, k, d)[k], a);
  }

  ghost predicate TradeLocked(t: Table, trade: Trade, a: Asset) {
    forall k: Key :: k.asset == a ==> LockedAt(t, k) >= TradeDecrease(trade, k)
  }

  lemma PostTradeCreates(t: Table, trade: Trade, a: Asset)
    requires trade.quantity >= 0 && Cost(trade) >= 0 && NoDebt(t)
    ensures Total(PostTrade(t, trade), a) >= Total(t, a)
    ensures Total(PostTrade(t, trade), a) == Total(t, a) <==> TradeLocked(t, trade, a)
  {
    var bq, bb, sb, sq := BuyerQuote(trade), BuyerBase(trade), SellerBase(trade), SellerQuote(trade);
    var t1 := Ledger.Upsert(t, bq, Delta(Cost(trade), 0));
    var t2 := Ledger.Upsert(t1, bb, Delta(0, trade.quantity));
    var t3 := Ledger.Upsert(t2, sb, Delta(trade.quantity, 0));
    UpsertCreates(t, bq, Delta(Cost(trade), 0), a);
    UpsertCreates(t1, bb, Delta(0, trade.quantity), a);
    UpsertCreates(t2, sb, Delta(trade.quantity, 0), a);
    UpsertCreates(t3, sq, Delta(0, Cost(trade)), a);
    assert LockedAt(t2, sb) == LockedAt(t1, sb);
    if TradeLocked(t, trade, a) {
      assert bq.asset == a ==> LockedAt(t, bq) >= TradeDecrease(trade, bq);
      assert sb.asset == a ==> LockedAt(t, sb) >= TradeDecrease(trade, sb);
    }
  }

  ghost predicate TradesLocked(t: Table, trades: seq<Trade>, a: Asset) {
    forall k: Key :: k.asset == a ==> LockedAt(t, k) >= Decrease(trades, k)
  }

  lemma {:induction false} PostTradesCreate(t: Table, trades: seq<Trade>, a: Asset)
    requires Sound(trades) && NoDebt(t)
    ensures Total(PostTrades(t, trades), a) >= Total(t, a)
    ensures Total(PostTrades(t, trades), a) == Total(t, a) <==> TradesLocked(t, trades, a)
    decreases trades
  {
    if trades != [] {
      var next, more := PostTrade(t, trades[0]), trades[1..];
      assert Sound(more);
      forall k ensures LockedAt(next, k) == Max(LockedAt(t, k) - TradeDecrease(trades[0], k), 0)
        ensures Decrease(more, k) >= 0
      {
        PostTradeAt(t, trades[0], k);
        DecreaseSound(more, k);
      }
      assert NoDebt(next) by {
        assert forall k :: k in next ==> LockedAt(next, k) == next[k].locked;
      }
      PostTradeCreates(t, trades[0], a);
      PostTradesCreate(next, more, a);
      LockedInTurn(t, next, trades, a);
    }
  }

  /** What is locked covers all trades exactly if it covers the first, and what is left the others. */
  lemma LockedInTurn(t: Table, next: Table, trades: seq<Trade>, a: Asset)
    requires trades != [] && forall k :: Decrease(trades[1..], k) >= 0
    requires forall k :: LockedAt(next, k) == Max(LockedAt(t, k) - TradeDecrease(trades[0], k), 0)
    ensures TradesLocked(t, trades, a) <==> TradeLocked(t, trades[0], a) && TradesLocked(next, trades[1..], a)
  {
    if TradesLocked(t, trades, a) {
      forall k: Key | k.asset == a
        ensures LockedAt(t, k) >= TradeDecrease(trades[0], k) && LockedAt(next, k) >= Decrease(trades[1..], k)
      {
        assert LockedAt(t, k) >= Decrease(trades, k);
      }
    }
    if TradeLocked(t, trades[0], a) && TradesLocked(next, trades[1..], a) {
      forall k: Key | k.asset == a ensures LockedAt(t, k) >= Decrease(trades, k) {
        assert LockedAt(t, k) >= TradeDecrease(trades[0], k) && LockedAt(next, k) >= Decrease(trades[1..], k);
      }
    }
  }

  ghost predicate JobLocked(t: Table, job: Job, a: Asset) {
    forall k: Key :: k.asset == a ==> LockedAt(t, k) >= JobDecrease(job, k)
  }

  /** If the job releases anything, there is a row to release it in. */
  predicate Lands(t: Table, order: Order) { ReleasedAt(order, LockKey(order)) != 0 ==> LockKey(order) in t }

  lemma ReleaseCreates(t: Table, order: Order, a: Asset)
    requires NoDebt(t) && Lands(t, order) && ReleasedAt(order, LockKey(order)) >= 0
    ensures Total(Release(t, order), a) >= Total(t, a)
    ensures Total(Release(t, order), a) == Total(t, a) <==>
      (LockKey(order).asset == a ==> LockedAt(t, LockKey(order)) >= ReleasedAt(order, LockKey(order)))
  {
    var key, amount := LockKey(order), LockedFor(order, order.remaining);
    if Releases(order) && key in t {
      TotalPut(t, key, Unlock(t, key, amount)[key], a);
    }
  }

  /** A row after a job: what was taken beyond what was locked is clamped away. */
  lemma JobRow(t: Table, job: Job, k: Key)
    requires SoundJobs([job]) && NoDebt(t) && Lands(t, job.order)
    ensures LockedAt(PersistJob(t, job), k) == Max(LockedAt(t, k) - JobDecrease(job, k), 0)
    ensures LockedAt(ApplyDeltas(t, job.trades), k) == Max(LockedAt(t, k) - Decrease(job.trades, k), 0)
    ensures JobDecrease(job, k) >= Decrease(job.trades, k) >= 0
    ensures k in t ==> k in ApplyDeltas(t, job.trades) && k in PersistJob(t, job)
  {
    assert [job][0] == job;
    TradesRow(t, job.trades, k);
    ReleasedRow(ApplyDeltas(t, job.trades), job.order, k);
  }

  lemma TradesRow(t: Table, trades: seq<Trade>, k: Key)
    requires Sound(trades) && NoDebt(t)
    ensures LockedAt(ApplyDeltas(t, trades), k) == Max(LockedAt(t, k) - Decrease(trades, k), 0)
    ensures Decrease(trades, k) >= 0 && (k in t ==> k in ApplyDeltas(t, trades))
  {
    DeltasArePosts(t, trades);
    PostTradesAt(t, trades, k);
    DecreaseSound(trades, k);
  }

  lemma ReleasedRow(t: Table, order: Order, k: Key)
    requires LockedAt(t, k) >= 0 && ReleasedAt(order, k) >= 0 && (ReleasedAt(order, k) != 0 ==> k in t)
    ensures LockedAt(Release(t, order), k) == Max(LockedAt(t, k) - ReleasedAt(order, k), 0)
    ensures k in t ==> k in Release(t, order)
  {
  }

  lemma JobRows(t: Table, job: Job)
    requires SoundJobs([job]) && NoDebt(t) && Lands(t, job.order)
    ensures NoDebt(ApplyDeltas(t, job.trades)) && NoDebt(PersistJob(t, job))
    ensures Lands(ApplyDeltas(t, job.trades), job.order)
  {
    var t1, t2 := ApplyDeltas(t, job.trades), PersistJob(t, job);
    forall k ensures LockedAt(t1, k) >= 0 && LockedAt(t2, k) >= 0 && (k in t ==> k in t1) {
      JobRow(t, job, k);
    }
    assert forall k :: k in t1 ==> LockedAt(t1, k) == t1[k].locked;
    assert forall k :: k in t2 ==> LockedAt(t2, k) == t2[k].locked;
  }

  lemma JobCreates(t: Table, job: Job, a: Asset)
    requires SoundJobs([job]) && NoDebt(t) && Lands(t, job.order)
    ensures Total(PersistJob(t, job), a) >= Total(t, a)
    ensures Total(PersistJob(t, job), a) == Total(t, a) <==> JobLocked(t, job, a)
  {
    var t1, key := ApplyDeltas(t, job.trades), LockKey(job.order);
    assert [job][0] == job;
    DeltasArePosts(t, job.trades);
    PostTradesCreate(t, job.trades, a);
    JobRows(t, job);
    ReleaseCreates(t1, job.order, a);
    JobRow(t, job, key);
    forall k: Key | k.asset == a
      ensures LockedAt(t, k) >= JobDecrease(job, k) <==>
        && LockedAt(t, k) >= Decrease(job.trades, k)
        && (k == key ==> LockedAt(t1, key) >= ReleasedAt(job.order, key))
    {
      JobRow(t, job, k);
    }
    JobLockedInParts(t, t1, job, a);
  }

  lemma JobLockedInParts(t: Table, t1: Table, job: Job, a: Asset)
    requires var key := LockKey(job.order);
      forall k: Key :: k.asset == a ==>
        (LockedAt(t, k) >= JobDecrease(job, k) <==>
         && LockedAt(t, k) >= Decrease(job.trades, k)
         && (k == key ==> LockedAt(t1, key) >= ReleasedAt(job.order, key)))
    ensures var key := LockKey(job.order);
      JobLocked(t, job, a) <==>
        && TradesLocked(t, job.trades, a)
        && (key.asset == a ==> LockedAt(t1, key) >= ReleasedAt(job.order, key))
  {
    var key := LockKey(job.order);
    if JobLocked(t, job, a) && key.asset == a {
      assert LockedAt(t, key) >= JobDecrease(job, key);
    }
  }

  ghost predicate AllTotalsKept(t: Table, t': Table) { forall a :: SameTotal(t, t', a) }

  /** Persisting a job keeps the total of every asset if and only if all that it takes is locked.
      Otherwise a clamp fires, and units are created. */
  lemma JobExactly(t: Table, job: Job)
    requires SoundJobs([job]) && NoDebt(t) && Lands(t, job.order)
    ensures AllTotalsKept(t, PersistJob(t, job)) <==> forall k :: LockedAt(t, k) >= JobDecrease(job, k)
    ensures forall a :: Total(PersistJob(t, job), a) >= Total(t, a)
  {
    forall a
      ensures SameTotal(t, PersistJob(t, job), a) <==> JobLocked(t, job, a)
      ensures Total(PersistJob(t, job), a) >= Total(t, a)
    {
      JobCreates(t, job, a);
    }
    if AllTotalsKept(t, PersistJob(t, job)) {
      forall k ensures LockedAt(t, k) >= JobDecrease(job, k) {
        assert SameTotal(t, PersistJob(t, job), k.asset);
        assert JobLocked(t, job, k.asset);
      }
    }
  }

  /** On a table in which nothing is locked, because the lock is kept in another store, every persisted
      trade creates what it trades; and if the rows are there, so does the path that only updates. */
  lemma UnlockedCreates(t: Table, job: Job)
    requires SoundJobs([job]) && Lands(t, job.order) && forall k :: k in t ==> t[k].locked == 0
    requires job.trades != [] && job.trades[0].quantity > 0
    ensures Total(PersistJob(t, job), job.trades[0].pair.base) > Total(t, job.trades[0].pair.base)
    ensures Covers(t, job.trades) ==> PersistJobExisting(t, job) == PersistJob(t, job)
  {
    var trade, key := job.trades[0], SellerBase(job.trades[0]);
    assert [job][0] == job;
    assert Sound(job.trades[1..]);
    DecreaseSound(job.trades[1..], key);
    JobRow(t, job, key);
    assert LockedAt(t, key) == 0 < trade.quantity <= Decrease(job.trades, key) <= JobDecrease(job, key);
    JobCreates(t, job, trade.pair.base);
    if Covers(t, job.trades) {
      assert UpdateExisting(t, job.trades) == ApplyDeltas(t, job.trades);
    }
  }

  // ---- All pending matches -------------------------------------------------------------------------

  /** The steps persist all pending matches, in any order. */
  predicate Drains(s: State, steps: seq<Step>)
    decreases steps
  {
    if steps == [] then s.pending == []
    else steps[0].Persisted? && steps[0].index < |s.pending| && Drains(Take(s, steps[0]), steps[1..])
  }

  ghost predicate JobsLocked(t: Table, jobs: seq<Job>, a: Asset) {
    forall k: Key :: k.asset == a ==> LockedAt(t, k) >= JobsDecrease(jobs, k)
  }

  ghost predicate AllLand(t: Table, jobs: seq<Job>) { forall i :: 0 <= i < |jobs| ==> Lands(t, jobs[i].order) }

  lemma JobTakenOut(jobs: seq<Job>, i: nat, k: Key)
    requires SoundJobs(jobs) && i < |jobs|
    ensures JobsDecrease(jobs[..i] + jobs[i + 1..], k) == JobsDecrease(jobs, k) - JobDecrease(jobs[i], k)
    ensures SoundJobs(jobs[..i] + jobs[i + 1..]) && JobsDecrease(jobs[..i] + jobs[i + 1..], k) >= 0
  {
    var near, job, far := jobs[..i], jobs[i], jobs[i + 1..];
    assert jobs == near + [job] + far && [job][1..] == [];
    JobsConcat(near + [job], far, k);
    JobsConcat(near, [job], k);
    JobsConcat(near, far, k);
    assert forall j :: 0 <= j < |near + far| ==> (near + far)[j] == jobs[if j < i then j else j + 1];
    JobsDecreaseSound(near + far, k);
  }

  /** What is locked covers all pending matches exactly if it covers the one that is persisted, and what
      is left the others. */
  lemma LockedForRest(s: State, i: nat, a: Asset)
    requires SoundJobs(s.pending) && NoDebt(s.table) && AllLand(s.table, s.pending) && i < |s.pending|
    ensures JobsLocked(s.table, s.pending, a) <==>
      JobLocked(s.table, s.pending[i], a) && JobsLocked(Persist(s, i).table, Persist(s, i).pending, a)
  {
    var t, t', job, rest := s.table, Persist(s, i).table, s.pending[i], Persist(s, i).pending;
    assert SoundJobs([job]);
    forall k
      ensures LockedAt(t, k) >= JobsDecrease(s.pending, k) <==>
        LockedAt(t, k) >= JobDecrease(job, k) && LockedAt(t', k) >= JobsDecrease(rest, k)
    {
      JobTakenOut(s.pending, i, k);
      JobRow(t, job, k);
    }
  }

  lemma PersistLands(s: State, i: nat)
    requires SoundJobs(s.pending) && NoDebt(s.table) && AllLand(s.table, s.pending) && i < |s.pending|
    ensures var s' := Persist(s, i);
      SoundJobs(s'.pending) && NoDebt(s'.table) && AllLand(s'.table, s'.pending)
  {
    var s', job := Persist(s, i), s.pending[i];
    assert SoundJobs([job]);
    JobTakenOut(s.pending, i, LockKey(job.order));
    JobRows(s.table, job);
    assert s.table.Keys <= s'.table.Keys;
    forall j | 0 <= j < |s'.pending| ensures Lands(s'.table, s'.pending[j].order) {
      assert s'.pending[j] == s.pending[if j < i then j else j + 1];
    }
  }

  lemma {:induction false} DrainCreates(s: State, steps: seq<Step>, a: Asset)
    requires SoundJobs(s.pending) && NoDebt(s.table) && AllLand(s.table, s.pending) && Drains(s, steps)
    ensures Total(TakeAll(s, steps).table, a) >= Total(s.table, a)
    ensures Total(TakeAll(s, steps).table, a) == Total(s.table, a) <==> JobsLocked(s.table, s.pending, a)
    decreases steps
  {
    if steps == [] {
      forall k ensures LockedAt(s.table, k) >= JobsDecrease(s.pending, k) {
        assert k in s.table ==> s.table[k].locked >= 0;
      }
    } else {
      var i := steps[0].index;
      assert SoundJobs([s.pending[i]]);
      JobCreates(s.table, s.pending[i], a);
      LockedForRest(s, i, a);
      PersistLands(s, i);
      DrainCreates(Persist(s, i), steps[1..], a);
    }
  }

  /** Persisting all pending matches, in any order, keeps every total if and only if every row has locked
      what they take from it together. */
  lemma DrainExactly(s: State, steps: seq<Step>)
    requires SoundJobs(s.pending) && NoDebt(s.table) && AllLand(s.table, s.pending) && Drains(s, steps)
    ensures AllTotalsKept(s.table, TakeAll(s, steps).table) <==>
      forall k :: LockedAt(s.table, k) >= JobsDecrease(s.pending, k)
  {
    var after := TakeAll(s, steps).table;
    forall a ensures SameTotal(s.table, after, a) <==> JobsLocked(s.table, s.pending, a) {
      DrainCreates(s, steps, a);
    }
    if AllTotalsKept(s.table, after) {
      forall k ensures LockedAt(s.table, k) >= JobsDecrease(s.pending, k) {
        assert SameTotal(s.table, after, k.asset);
        assert JobsLocked(s.table, s.pending, k.asset);
      }
    }
  }

  // ---- A market buy ----------------------------------------------------------------------------------

  /** What a placed market buy takes from its buyer's quote row: its cost on the book.  Only on a pair
      of an asset with itself does a buyer who is also the seller give up more there. */
  lemma MarketBuyTakes(p: Pair, b: Books, order: Order)
    requires ValidBooks(b) && AllOwed(p, b.bids) && AllOwed(p, b.asks)
    requires Admissible(p, order) && MarketBuy(order) && order.id !in b.AllIds()
    ensures p.base != p.quote ==> JobDecrease(JobOf(b, order), LockKey(order)) == MatchCost(order, b.asks)
  {
    ValidFacts(Sell, b.asks);
    SortedIsPrioritised(order, b.asks);
    CostIsServed(order, b.asks);
    MatchKeepsOrder(order, b.asks);
    if p.base != p.quote {
      forall i | 0 <= i < |b.asks| ensures b.asks[i].pair == order.pair {
        assert Owed(p, b.asks[i]);
      }
      WalkTakes(order, b.asks);
    }
  }

  /** A buyer's trades take their value from its quote row. */
  lemma {:induction false} WalkTakes(order: Order, book: seq<Order>)
    requires order.side.Buy? && order.pair.base != order.pair.quote && SamePair(order, book)
    ensures Decrease(Walk(order, book).result.trades, LockKey(order)) == TradeValue(Walk(order, book).result.trades)
    decreases book
  {
    if !Ends(order, book) {
      WalkTakes(Next(order, book[0]), book[1..]);
      if !SelfTrade(order, book[0]) {
        var trades := Walk(order, book).result.trades;
        assert trades[1..] == Walk(Next(order, book[0]), book[1..]).result.trades;
      }
    }
  }

  /** After any allowed run, a market buy is placed, paid for or not, and all pending matches are persisted
      in any order.  Every total is as before if and only if the buyer's quote row has locked what pending
      matches and the buy itself take from it; otherwise units are created.  Every other row has. */
  lemma MarketBuyExactly(p: Pair, t0: Table, s: State, order: Order, steps: seq<Step>)
    requires Solvent(p, t0, s) && Admissible(p, order) && MarketBuy(order) && Lock(s.table, order).Some?
    requires order.id !in s.books.AllIds() + Ids(s.stopped) && Drains(Place(s, order), steps)
    ensures var key := LockKey(order);
      AllTotalsKept(s.table, TakeAll(Place(s, order), steps).table) <==>
        LockedAt(s.table, key) >= JobsDecrease(s.pending, key) + JobDecrease(JobOf(s.books, order), key)
    ensures p.base != p.quote ==> JobDecrease(JobOf(s.books, order), LockKey(order)) == MatchCost(order, s.books.asks)
  {
    var s', key := Place(s, order), LockKey(order);
    MarketBuyTakes(p, s.books, order);
    PlacedLands(p, t0, s, order);
    DrainExactly(s', steps);
    PlacedTakes(p, t0, s, order, key);
    if LockedAt(s.table, key) >= JobsDecrease(s'.pending, key) {
      forall k ensures LockedAt(s'.table, k) >= JobsDecrease(s'.pending, k) {
        PlacedTakes(p, t0, s, order, k);
      }
    }
  }

  /** What the pending matches take with a market buy placed: only in the buyer's quote row may it be more
      than is locked. */
  lemma PlacedTakes(p: Pair, t0: Table, s: State, order: Order, k: Key)
    requires Solvent(p, t0, s) && Admissible(p, order) && MarketBuy(order) && Lock(s.table, order).Some?
    requires order.id !in s.books.AllIds() + Ids(s.stopped)
    ensures JobsDecrease(Place(s, order).pending, k)
         == JobsDecrease(s.pending, k) + JobDecrease(JobOf(s.books, order), k)
    ensures k != LockKey(order) ==> LockedAt(s.table, k) >= JobsDecrease(Place(s, order).pending, k)
  {
    var job := JobOf(s.books, order);
    JobsConcat(s.pending, [job], k);
    assert [job][1..] == [];
    PlaceNeeds(p, s, order, k);
    SubmitOrderly(p, s, order);
    NeededNonNegative(p, Place(s, order), k);
    assert LockedAt(s.table, k) >= Needed(s, k);
  }

  /** In a solvent state with a market buy placed, no row is in debt and every release has a row. */
  lemma PlacedLands(p: Pair, t0: Table, s: State, order: Order)
    requires Solvent(p, t0, s) && Admissible(p, order) && MarketBuy(order) && Lock(s.table, order).Some?
    requires order.id !in s.books.AllIds() + Ids(s.stopped)
    ensures Place(s, order).table == s.table && SoundJobs(Place(s, order).pending)
    ensures NoDebt(s.table) && AllLand(s.table, Place(s, order).pending)
  {
    SubmitOrderly(p, s, order);
    forall k ensures LockedAt(s.table, k) >= JobsDecrease(s.pending, k) >= 0 {
      NeededNonNegative(p, s, k);
      assert LockedAt(s.table, k) >= Needed(s, k);
    }
    assert NoDebt(s.table) by {
      assert forall k :: k in s.table ==> LockedAt(s.table, k) == s.table[k].locked;
    }
    forall i | 0 <= i < |s.pending| ensures Lands(s.table, s.pending[i].order) {
      var key := LockKey(s.pending[i].order);
      JobTakenOut(s.pending, i, key);
      DecreaseSound(s.pending[i].trades, key);
    }
    MatchKeepsOrder(order, s.books.asks);
  }
}
