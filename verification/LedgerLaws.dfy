/** What the ledger statements amount to: the same result trade by trade, job by job or in any
    batches and any order, and no unit created or destroyed.  (crates/api/src/routes.rs) */
module LedgerLaws {
  import opened Types
  import opened Ledger

  // ---- Closed form -------------------------------------------------------------------------------

  function ReleasedAt(order: Order, k: Key): int {
    if Releases(order) && k == LockKey(order) then LockedFor(order, order.remaining) else 0
  }

  /** What a job takes from the locked part of a row, clamps aside. */
  function JobDecrease(job: Job, k: Key): int { Decrease(job.trades, k) + ReleasedAt(job.order, k) }

  function JobIncrease(job: Job, k: Key): int { Increase(job.trades, k) + ReleasedAt(job.order, k) }

  function JobsDecrease(jobs: seq<Job>, k: Key): int {
    if jobs == [] then 0 else JobDecrease(jobs[0], k) + JobsDecrease(jobs[1..], k)
  }

  function JobsIncrease(jobs: seq<Job>, k: Key): int {
    if jobs == [] then 0 else JobIncrease(jobs[0], k) + JobsIncrease(jobs[1..], k)
  }

  /** Trades and releases move nothing backwards. */
  ghost predicate Sound(trades: seq<Trade>) {
    forall i :: 0 <= i < |trades| ==> trades[i].quantity >= 0 && Cost(trades[i]) >= 0
  }

  ghost predicate SoundJobs(jobs: seq<Job>) {
    forall i :: 0 <= i < |jobs| ==>
      Sound(jobs[i].trades) && (Releases(jobs[i].order) ==> LockedFor(jobs[i].order, jobs[i].order.remaining) >= 0)
  }

  /** The rows that a job needs are there. */
  ghost predicate Covers(t: Table, trades: seq<Trade>) { Touched(trades) <= t.Keys }

  ghost predicate CoversJobs(t: Table, jobs: seq<Job>) {
    forall i :: 0 <= i < |jobs| ==> Covers(t, jobs[i].trades)
  }

  ghost predicate NoDebt(t: Table) { forall k :: k in t ==> t[k].locked >= 0 }

  lemma {:induction false} Untouched(trades: seq<Trade>, k: Key)
    requires k !in Touched(trades)
    ensures Decrease(trades, k) == 0 && Increase(trades, k) == 0
  {
    if trades != [] {
      Untouched(trades[1..], k);
    }
  }

  lemma {:induction false} DecreaseSound(trades: seq<Trade>, k: Key)
    requires Sound(trades)
    ensures Decrease(trades, k) >= 0 && Increase(trades, k) >= 0
  {
    if trades != [] {
      DecreaseSound(trades[1..], k);
    }
  }

  lemma {:induction false} JobsDecreaseSound(jobs: seq<Job>, k: Key)
    requires SoundJobs(jobs)
    ensures JobsDecrease(jobs, k) >= 0
  {
    if jobs != [] {
      DecreaseSound(jobs[0].trades, k);
      assert SoundJobs(jobs[1..]);
      JobsDecreaseSound(jobs[1..], k);
    }
  }

  lemma ShiftTwice(b: Balance, d1: int, i1: int, d2: int, i2: int)
    requires d1 >= 0 && d2 >= 0
    ensures Shift(Shift(b, d1, i1), d2, i2) == Shift(b, d1 + d2, i1 + i2)
  {
  }

  // ---- Clamped debits ------------------------------------------------------------------------------

  function SumOf(debits: seq<int>): int { if debits == [] then 0 else debits[0] + SumOf(debits[1..]) }

  /** locked = GREATEST(locked - debit, 0), once per debit. */
  function Clamped(locked: int, debits: seq<int>): int
    decreases debits
  {
    if debits == [] then locked else Clamped(Max(locked - debits[0], 0), debits[1..])
  }

  /** What the clamps guarantee to be left: the worst that later debits give back. */
  function LowestLeft(debits: seq<int>): (left: int)
    ensures left >= 0
  {
    if |debits| <= 1 then 0 else Max(LowestLeft(debits[1..]), -SumOf(debits[1..]))
  }

  /** What is left after debits that add up to the difference. */
  function AtLeast(left: int, debits: seq<int>): int {
    if debits == [] then left else Max(left, LowestLeft(debits))
  }

  /** The clamps in closed form, whatever the signs. */
  lemma {:induction false} ClampedForm(locked: int, debits: seq<int>)
    ensures Clamped(locked, debits) == AtLeast(locked - SumOf(debits), debits)
    decreases debits
  {
    if debits != [] {
      ClampedForm(Max(locked - debits[0], 0), debits[1..]);
    }
  }

  lemma {:induction false} ClampedConcat(locked: int, a: seq<int>, b: seq<int>)
    ensures Clamped(locked, a + b) == Clamped(Clamped(locked, a), b)
    ensures SumOf(a + b) == SumOf(a) + SumOf(b)
    decreases a
  {
    if a == [] {
      assert a + b == b;
    } else {
      assert (a + b)[0] == a[0] && (a + b)[1..] == a[1..] + b;
      ClampedConcat(Max(locked - a[0], 0), a[1..], b);
    }
  }

  ghost predicate AllNonNegative(debits: seq<int>) { forall i :: 0 <= i < |debits| ==> debits[i] >= 0 }

  lemma {:induction false} NonNegativeDebits(debits: seq<int>)
    requires AllNonNegative(debits)
    ensures SumOf(debits) >= 0 && LowestLeft(debits) == 0
  {
    if debits != [] {
      assert AllNonNegative(debits[1..]);
      NonNegativeDebits(debits[1..]);
    }
  }

  // ---- Debits of a row -------------------------------------------------------------------------------

  /** The debits of a row, in the order of the statements. */
  function TradeDebits(trade: Trade, k: Key): seq<int> {
    (if k == BuyerQuote(trade) then [Cost(trade)] else [])
    + (if k == SellerBase(trade) then [trade.quantity] else [])
  }

  function Debits(trades: seq<Trade>, k: Key): seq<int> {
    if trades == [] then [] else TradeDebits(trades[0], k) + Debits(trades[1..], k)
  }

  function ReleaseDebits(order: Order, k: Key): seq<int> {
    if Releases(order) && k == LockKey(order) then [LockedFor(order, order.remaining)] else []
  }

  /** Trade by trade, and each job's release after its trades. */
  function JobsDebits(jobs: seq<Job>, k: Key): seq<int> {
    if jobs == [] then []
    else Debits(jobs[0].trades, k) + ReleaseDebits(jobs[0].order, k) + JobsDebits(jobs[1..], k)
  }

  function ReleasesDebits(jobs: seq<Job>, k: Key): seq<int> {
    if jobs == [] then [] else ReleaseDebits(jobs[0].order, k) + ReleasesDebits(jobs[1..], k)
  }

  /** One aggregated debit if any trade touches the row. */
  function SummedDebit(trades: seq<Trade>, k: Key): seq<int> {
    if k in Touched(trades) then [Decrease(trades, k)] else []
  }

  /** Per batch, the aggregated debit and then the releases. */
  function BatchesDebits(batches: seq<seq<Job>>, k: Key): seq<int> {
    if batches == [] then []
    else SummedDebit(AllTrades(batches[0]), k) + ReleasesDebits(batches[0], k) + BatchesDebits(batches[1..], k)
  }

  /** Every row of `t'` is the row of `t` after its debits and credits. */
  ghost predicate Moved(t: Table, t': Table, debits: Key -> seq<int>, credit: Key -> int) {
    && t'.Keys == t.Keys
    && forall k :: k in t ==> t'[k] == Balance(t[k].available + credit(k), Clamped(t[k].locked, debits(k)))
  }

  /** Debits after debits, clamps included. */
  lemma Compose(t: Table, t1: Table, t2: Table, d1: Key -> seq<int>, c1: Key -> int,
                d2: Key -> seq<int>, c2: Key -> int, d: Key -> seq<int>, c: Key -> int)
    requires Moved(t, t1, d1, c1) && Moved(t1, t2, d2, c2)
    requires forall k :: k in t ==> d(k) == d1(k) + d2(k) && c(k) == c1(k) + c2(k)
    ensures Moved(t, t2, d, c)
  {
    forall k | k in t ensures t2[k] == Balance(t[k].available + c(k), Clamped(t[k].locked, d(k))) {
      ClampedConcat(t[k].locked, d1(k), d2(k));
    }
  }

  lemma SettleTradeKeys(t: Table, trade: Trade)
    requires TradeKeys(trade) <= t.Keys
    ensures SettleTrade(t, trade).Keys == t.Keys
  {
  }

  lemma SettleTradeAt(t: Table, trade: Trade, k: Key)
    requires TradeKeys(trade) <= t.Keys && k in t
    ensures k in SettleTrade(t, trade)
    ensures SettleTrade(t, trade)[k]
         == Balance(t[k].available + TradeIncrease(trade, k), Clamped(t[k].locked, TradeDebits(trade, k)))
  {
    var first, second := BuyerQuote(trade), SellerBase(trade);
    var a := if k == first then [Cost(trade)] else [];
    var b := if k == second then [trade.quantity] else [];
    ClampedConcat(t[k].locked, a, b);
    assert a != [] ==> a[1..] == [];
    assert b != [] ==> b[1..] == [];
  }

  lemma {:induction false} SettleTradesMoves(t: Table, trades: seq<Trade>)
    requires Covers(t, trades)
    ensures Moved(t, SettleTrades(t, trades), k => Debits(trades, k), k => Increase(trades, k))
    decreases trades
  {
    if trades != [] {
      var t', more := SettleTrade(t, trades[0]), trades[1..];
      SettleTradeKeys(t, trades[0]);
      forall k | k in t
        ensures t'[k] ==
          Balance(t[k].available + TradeIncrease(trades[0], k), Clamped(t[k].locked, TradeDebits(trades[0], k)))
      {
        SettleTradeAt(t, trades[0], k);
      }
      SettleTradesMoves(t', more);
      Compose(t, t', SettleTrades(t', more),
              k => TradeDebits(trades[0], k), k => TradeIncrease(trades[0], k),
              k => Debits(more, k), k => Increase(more, k),
              k => Debits(trades, k), k => Increase(trades, k));
    }
  }

  lemma ApplyDeltasMoves(t: Table, trades: seq<Trade>)
    requires Covers(t, trades)
    ensures Moved(t, ApplyDeltas(t, trades), k => SummedDebit(trades, k), k => Increase(trades, k))
  {
    forall k | k in t
      ensures ApplyDeltas(t, trades)[k]
           == Balance(t[k].available + Increase(trades, k), Clamped(t[k].locked, SummedDebit(trades, k)))
    {
      if k in Touched(trades) {
        assert SummedDebit(trades, k)[1..] == [];
      } else {
        Untouched(trades, k);
      }
    }
  }

  lemma {:induction false} DebitsSum(trades: seq<Trade>, k: Key)
    ensures SumOf(Debits(trades, k)) == Decrease(trades, k)
    ensures Debits(trades, k) != [] ==> k in Touched(trades)
  {
    if trades != [] {
      var a := if k == BuyerQuote(trades[0]) then [Cost(trades[0])] else [];
      var b := if k == SellerBase(trades[0]) then [trades[0].quantity] else [];
      DebitsSum(trades[1..], k);
      ClampedConcat(0, a, b);
      ClampedConcat(0, TradeDebits(trades[0], k), Debits(trades[1..], k));
      assert a != [] ==> a[1..] == [];
      assert b != [] ==> b[1..] == [];
    }
  }

  /** Two tables that moved from the same one with the same credits. */
  lemma SameMoves(t: Table, a: Table, b: Table, d1: Key -> seq<int>, d2: Key -> seq<int>, c: Key -> int)
    requires Moved(t, a, d1, c) && Moved(t, b, d2, c)
    ensures a == b <==> forall k :: k in t ==> Clamped(t[k].locked, d1(k)) == Clamped(t[k].locked, d2(k))
  {
    if forall k :: k in t ==> Clamped(t[k].locked, d1(k)) == Clamped(t[k].locked, d2(k)) {
      assert forall k :: k in a ==> a[k] == b[k];
    }
  }

  /** In this row, no debit is clamped to more than what the sum leaves; a row without debits is not in
      debt. */
  predicate OnceIsEnough(locked: int, trades: seq<Trade>, k: Key) {
    var left := locked - Decrease(trades, k);
    if Debits(trades, k) == [] then left >= 0 else LowestLeft(Debits(trades, k)) <= Max(left, 0)
  }

  lemma OnceClamped(locked: int, trades: seq<Trade>, k: Key)
    ensures Clamped(locked, SummedDebit(trades, k)) == Clamped(locked, Debits(trades, k))
      <==> (k in Touched(trades) ==> OnceIsEnough(locked, trades, k))
  {
    DebitsSum(trades, k);
    ClampedForm(locked, Debits(trades, k));
    ClampedForm(locked, SummedDebit(trades, k));
    if k in Touched(trades) {
      assert SummedDebit(trades, k)[1..] == [];
    }
  }

  /** One aggregated statement per row does what settling trade by trade does exactly if, in every
      touched row, clamping once is enough.  Nothing is assumed but that the rows are there. */
  lemma AggregationExactly(t: Table, trades: seq<Trade>)
    requires Covers(t, trades)
    ensures ApplyDeltas(t, trades) == SettleTrades(t, trades) <==>
      forall k :: k in Touched(trades) ==> OnceIsEnough(t[k].locked, trades, k)
  {
    SettleTradesMoves(t, trades);
    ApplyDeltasMoves(t, trades);
    SameMoves(t, ApplyDeltas(t, trades), SettleTrades(t, trades),
              k => SummedDebit(trades, k), k => Debits(trades, k), k => Increase(trades, k));
    forall k | k in t
      ensures Clamped(t[k].locked, SummedDebit(trades, k)) == Clamped(t[k].locked, Debits(trades, k))
        <==> (k in Touched(trades) ==> OnceIsEnough(t[k].locked, trades, k))
    {
      OnceClamped(t[k].locked, trades, k);
    }
  }

  lemma {:induction false} DebitsNonNegative(trades: seq<Trade>, k: Key)
    requires Sound(trades)
    ensures AllNonNegative(Debits(trades, k))
  {
    if trades != [] {
      assert Sound(trades[1..]);
      DebitsNonNegative(trades[1..], k);
    }
  }

  lemma SoundOnce(locked: int, trades: seq<Trade>, k: Key)
    requires Sound(trades)
    ensures OnceIsEnough(locked, trades, k) <==> (locked < 0 ==> Debits(trades, k) != [])
  {
    DebitsNonNegative(trades, k);
    NonNegativeDebits(Debits(trades, k));
    DebitsSum(trades, k);
  }

  /** If no trade moves anything backwards, that is: no row in debt is touched without being debited.
      The aggregated statement lifts such a row to zero, the single ones leave it. */
  lemma AggregationIsExact(t: Table, trades: seq<Trade>)
    requires Covers(t, trades) && Sound(trades)
    ensures ApplyDeltas(t, trades) == SettleTrades(t, trades) <==>
      forall k :: k in Touched(trades) && t[k].locked < 0 ==> Debits(trades, k) != []
  {
    AggregationExactly(t, trades);
    forall k | k in Touched(trades)
      ensures OnceIsEnough(t[k].locked, trades, k) <==> (t[k].locked < 0 ==> Debits(trades, k) != [])
    {
      SoundOnce(t[k].locked, trades, k);
    }
  }

  const PAIR := Pair(1, 0)

  /** A seller whose quote row is in debt: the aggregated statement writes the debt off. */
  lemma DebtWrittenOff() returns (t: Table, trade: Trade)
    ensures Covers(t, [trade]) && Sound([trade])
    ensures SellerQuote(trade) in t && t[SellerQuote(trade)] == Balance(5, -5)
    ensures ApplyDeltas(t, [trade]) != SettleTrades(t, [trade])
  {
    trade := Trade(PAIR, 11, 10, 2, 1, 100, 1);
    t := map[Key(2, 0) := Balance(0, 100), Key(2, 1) := Balance(0, 0), Key(1, 1) := Balance(0, 1),
             Key(1, 0) := Balance(5, -5)];
    var k := SellerQuote(trade);
    assert [trade][0] == trade && [trade][1..] == [];
    assert Touched([trade]) == TradeKeys(trade) + Touched([]);
    assert Debits([trade], k) == TradeDebits(trade, k) + Debits([], k) == [];
    AggregationIsExact(t, [trade]);
  }

  /** A cost of 100 and then one of -100: trade by trade the row gains 100, aggregated it does not. */
  lemma NegativeCostDiffers() returns (t: Table, trades: seq<Trade>)
    ensures Covers(t, trades) && NoDebt(t) && |trades| == 2 && Cost(trades[1]) < 0
    ensures ApplyDeltas(t, trades) != SettleTrades(t, trades)
  {
    var first, second := Trade(PAIR, 11, 10, 2, 1, 100, 1), Trade(PAIR, 11, 12, 2, 1, -100, 1);
    trades := [first, second];
    t := map[Key(2, 0) := Balance(0, 0), Key(2, 1) := Balance(0, 0), Key(1, 1) := Balance(0, 2),
             Key(1, 0) := Balance(0, 0)];
    var k := Key(2, 0);
    assert trades[1..] == [second] && [second][1..] == [];
    assert Touched(trades) == TradeKeys(first) + Touched([second]);
    assert Touched([second]) == TradeKeys(second) + Touched([]);
    assert Debits([second], k) == TradeDebits(second, k) + Debits([], k) == [-100];
    assert Debits(trades, k) == TradeDebits(first, k) + [-100] == [100, -100];
    assert [100, -100][1..] == [-100] && [-100][1..] == [];
    assert SumOf([-100]) == -100 && SumOf([100, -100]) == 100 + SumOf([-100]);
    assert LowestLeft([-100]) == 0 && LowestLeft([100, -100]) == 100;
    DebitsSum(trades, k);
    assert !OnceIsEnough(t[k].locked, trades, k);
    AggregationExactly(t, trades);
  }

  // ---- Batches -------------------------------------------------------------------------------------

  function Flatten(batches: seq<seq<Job>>): seq<Job> {
    if batches == [] then [] else batches[0] + Flatten(batches[1..])
  }

  function ReleasedBy(jobs: seq<Job>, k: Key): int {
    if jobs == [] then 0 else ReleasedAt(jobs[0].order, k) + ReleasedBy(jobs[1..], k)
  }

  /** The jobs one by one, every trade settled on its own. */
  function PersistSlowly(t: Table, jobs: seq<Job>): Table
    decreases jobs
  {
    if jobs == [] then t else PersistSlowly(Release(SettleTrades(t, jobs[0].trades), jobs[0].order), jobs[1..])
  }

  lemma ReleaseMoves(t: Table, order: Order)
    ensures Moved(t, Release(t, order), k => ReleaseDebits(order, k), k => ReleasedAt(order, k))
  {
    forall k | k in t
      ensures Release(t, order)[k]
           == Balance(t[k].available + ReleasedAt(order, k), Clamped(t[k].locked, ReleaseDebits(order, k)))
    {
      assert ReleaseDebits(order, k) != [] ==> ReleaseDebits(order, k)[1..] == [];
    }
  }

  lemma SlowJobMoves(t: Table, job: Job)
    requires Covers(t, job.trades)
    ensures Moved(t, Release(SettleTrades(t, job.trades), job.order),
                  k => Debits(job.trades, k) + ReleaseDebits(job.order, k), k => JobIncrease(job, k))
  {
    var t1 := SettleTrades(t, job.trades);
    SettleTradesMoves(t, job.trades);
    ReleaseMoves(t1, job.order);
    Compose(t, t1, Release(t1, job.order),
            k => Debits(job.trades, k), k => Increase(job.trades, k),
            k => ReleaseDebits(job.order, k), k => ReleasedAt(job.order, k),
            k => Debits(job.trades, k) + ReleaseDebits(job.order, k), k => JobIncrease(job, k));
  }

  lemma {:induction false} PersistSlowlyMoves(t: Table, jobs: seq<Job>)
    requires CoversJobs(t, jobs)
    ensures Moved(t, PersistSlowly(t, jobs), k => JobsDebits(jobs, k), k => JobsIncrease(jobs, k))
    decreases jobs
  {
    if jobs != [] {
      var job, more := jobs[0], jobs[1..];
      var t' := Release(SettleTrades(t, job.trades), job.order);
      SlowJobMoves(t, job);
      assert CoversJobs(t', more);
      PersistSlowlyMoves(t', more);
      Compose(t, t', PersistSlowly(t', more),
              k => Debits(job.trades, k) + ReleaseDebits(job.order, k), k => JobIncrease(job, k),
              k => JobsDebits(more, k), k => JobsIncrease(more, k),
              k => JobsDebits(jobs, k), k => JobsIncrease(jobs, k));
    }
  }

  lemma {:induction false} ReleaseAllMoves(t: Table, jobs: seq<Job>)
    ensures Moved(t, ReleaseAll(t, jobs), k => ReleasesDebits(jobs, k), k => ReleasedBy(jobs, k))
    decreases jobs
  {
    if jobs != [] {
      var order, more := jobs[0].order, jobs[1..];
      var t' := Release(t, order);
      ReleaseMoves(t, order);
      ReleaseAllMoves(t', more);
      Compose(t, t', ReleaseAll(t', more),
              k => ReleaseDebits(order, k), k => ReleasedAt(order, k),
              k => ReleasesDebits(more, k), k => ReleasedBy(more, k),
              k => ReleasesDebits(jobs, k), k => ReleasedBy(jobs, k));
    }
  }

  lemma {:induction false} BatchSums(jobs: seq<Job>, k: Key)
    ensures JobsDecrease(jobs, k) == Decrease(AllTrades(jobs), k) + ReleasedBy(jobs, k)
    ensures JobsIncrease(jobs, k) == Increase(AllTrades(jobs), k) + ReleasedBy(jobs, k)
    ensures SumOf(ReleasesDebits(jobs, k)) == ReleasedBy(jobs, k)
  {
    if jobs != [] {
      DeltaConcat(jobs[0].trades, AllTrades(jobs[1..]), k);
      BatchSums(jobs[1..], k);
      ClampedConcat(0, ReleaseDebits(jobs[0].order, k), ReleasesDebits(jobs[1..], k));
      assert ReleaseDebits(jobs[0].order, k) != [] ==> ReleaseDebits(jobs[0].order, k)[1..] == [];
    }
  }

  lemma {:induction false} AllTradesCovered(t: Table, jobs: seq<Job>)
    requires CoversJobs(t, jobs)
    ensures Covers(t, AllTrades(jobs))
  {
    if jobs != [] {
      assert CoversJobs(t, jobs[1..]);
      AllTradesCovered(t, jobs[1..]);
      DeltaConcat(jobs[0].trades, AllTrades(jobs[1..]), Key(0, 0));
    }
  }

  lemma PersistBatchMoves(t: Table, jobs: seq<Job>)
    requires CoversJobs(t, jobs)
    ensures Moved(t, PersistBatch(t, jobs), k => SummedDebit(AllTrades(jobs), k) + ReleasesDebits(jobs, k),
                  k => JobsIncrease(jobs, k))
  {
    var trades := AllTrades(jobs);
    var t1 := ApplyDeltas(t, trades);
    AllTradesCovered(t, jobs);
    ApplyDeltasMoves(t, trades);
    ReleaseAllMoves(t1, jobs);
    forall k | k in t ensures JobsIncrease(jobs, k) == Increase(trades, k) + ReleasedBy(jobs, k) {
      BatchSums(jobs, k);
    }
    Compose(t, t1, ReleaseAll(t1, jobs),
            k => SummedDebit(trades, k), k => Increase(trades, k),
            k => ReleasesDebits(jobs, k), k => ReleasedBy(jobs, k),
            k => SummedDebit(trades, k) + ReleasesDebits(jobs, k), k => JobsIncrease(jobs, k));
  }

  lemma {:induction false} JobsConcat(a: seq<Job>, b: seq<Job>, k: Key)
    ensures JobsDecrease(a + b, k) == JobsDecrease(a, k) + JobsDecrease(b, k)
    ensures JobsIncrease(a + b, k) == JobsIncrease(a, k) + JobsIncrease(b, k)
  {
    if a == [] {
      assert a + b == b;
    } else {
      assert (a + b)[0] == a[0] && (a + b)[1..] == a[1..] + b;
      JobsConcat(a[1..], b, k);
    }
  }

  lemma {:induction false} PersistBatchesMoves(t: Table, batches: seq<seq<Job>>)
    requires CoversJobs(t, Flatten(batches))
    ensures Moved(t, PersistBatches(t, batches), k => BatchesDebits(batches, k), k => JobsIncrease(Flatten(batches), k))
    decreases batches
  {
    if batches != [] {
      var first, more := batches[0], Flatten(batches[1..]);
      var all := Flatten(batches);
      var t' := PersistBatch(t, first);
      assert forall i :: 0 <= i < |first| ==> first[i] == all[i];
      assert forall i :: 0 <= i < |more| ==> more[i] == all[|first| + i];
      PersistBatchMoves(t, first);
      PersistBatchesMoves(t', batches[1..]);
      forall k | k in t ensures JobsIncrease(all, k) == JobsIncrease(first, k) + JobsIncrease(more, k) {
        JobsConcat(first, more, k);
      }
      Compose(t, t', PersistBatches(t', batches[1..]),
              k => SummedDebit(AllTrades(first), k) + ReleasesDebits(first, k), k => JobsIncrease(first, k),
              k => BatchesDebits(batches[1..], k), k => JobsIncrease(more, k),
              k => BatchesDebits(batches, k), k => JobsIncrease(all, k));
    }
  }

  lemma {:induction false} BatchesSum(batches: seq<seq<Job>>, k: Key)
    ensures SumOf(BatchesDebits(batches, k)) == JobsDecrease(Flatten(batches), k)
  {
    if batches != [] {
      var first := batches[0];
      var trades := AllTrades(first);
      BatchesSum(batches[1..], k);
      BatchSums(first, k);
      JobsConcat(first, Flatten(batches[1..]), k);
      ClampedConcat(0, SummedDebit(trades, k), ReleasesDebits(first, k));
      ClampedConcat(0, SummedDebit(trades, k) + ReleasesDebits(first, k), BatchesDebits(batches[1..], k));
      if k in Touched(trades) {
        assert SummedDebit(trades, k)[1..] == [];
      } else {
        Untouched(trades, k);
      }
    }
  }

  lemma {:induction false} JobsSum(jobs: seq<Job>, k: Key)
    ensures SumOf(JobsDebits(jobs, k)) == JobsDecrease(jobs, k)
  {
    if jobs != [] {
      var a, b := Debits(jobs[0].trades, k), ReleaseDebits(jobs[0].order, k);
      JobsSum(jobs[1..], k);
      DebitsSum(jobs[0].trades, k);
      ClampedConcat(0, a, b);
      ClampedConcat(0, a + b, JobsDebits(jobs[1..], k));
      assert b != [] ==> b[1..] == [];
    }
  }

  lemma TakeOut(a: seq<Job>, near: seq<Job>, far: seq<Job>, j: Job)
    requires multiset([j] + a) == multiset(near + [j] + far)
    ensures multiset(a) == multiset(near + far)
  {
    assert multiset([j] + a) == multiset{j} + multiset(a);
    assert multiset(near + [j] + far) == multiset(near) + multiset{j} + multiset(far);
    assert multiset(near + far) == multiset(near) + multiset(far);
    assert multiset(a) == multiset([j] + a) - multiset{j};
    assert multiset(near + far) == multiset(near + [j] + far) - multiset{j};
  }

  lemma {:induction false} SameJobsSameSums(a: seq<Job>, b: seq<Job>, k: Key)
    requires multiset(a) == multiset(b)
    ensures JobsDecrease(a, k) == JobsDecrease(b, k) && JobsIncrease(a, k) == JobsIncrease(b, k)
  {
    if a == [] {
      assert |multiset(b)| == |b|;
    } else {
      var j := a[0];
      assert a == [j] + a[1..];
      assert j in multiset(b);
      var i :| 0 <= i < |b| && b[i] == j;
      var near, far := b[..i], b[i + 1..];
      assert b == near + [j] + far;
      TakeOut(a[1..], near, far, j);
      SameJobsSameSums(a[1..], near + far, k);
      JobsConcat(near + [j], far, k);
      JobsConcat(near, [j], k);
      JobsConcat(near, far, k);
      assert [j][1..] == [];
    }
  }

  /** What the batches and the single jobs guarantee by their clamps is at most what the sum leaves, or
      else the same. */
  predicate LeaveTheSame(locked: int, batches: seq<seq<Job>>, jobs: seq<Job>, k: Key) {
    SameLeft(locked - JobsDecrease(jobs, k), BatchesDebits(batches, k), JobsDebits(jobs, k))
  }

  /** The clamps give nothing. */
  predicate Above(left: int, debits: seq<int>) { debits == [] || LowestLeft(debits) <= left }

  predicate SameLeft(left: int, a: seq<int>, b: seq<int>) {
    || (Above(left, a) && Above(left, b))
    || (a != [] && b != [] && LowestLeft(a) == LowestLeft(b))
  }

  lemma SameSums(locked: int, a: seq<int>, b: seq<int>, sum: int)
    requires SumOf(a) == sum && SumOf(b) == sum
    ensures Clamped(locked, a) == Clamped(locked, b) <==> SameLeft(locked - sum, a, b)
  {
    ClampedForm(locked, a);
    ClampedForm(locked, b);
  }

  lemma BothSum(batches: seq<seq<Job>>, jobs: seq<Job>, k: Key)
    requires multiset(Flatten(batches)) == multiset(jobs)
    ensures SumOf(BatchesDebits(batches, k)) == JobsDecrease(jobs, k) == SumOf(JobsDebits(jobs, k))
  {
    SameJobsSameSums(Flatten(batches), jobs, k);
    BatchesSum(batches, k);
    JobsSum(jobs, k);
  }

  lemma ClampedTheSame(locked: int, batches: seq<seq<Job>>, jobs: seq<Job>, k: Key)
    requires multiset(Flatten(batches)) == multiset(jobs)
    ensures Clamped(locked, BatchesDebits(batches, k)) == Clamped(locked, JobsDebits(jobs, k))
      <==> LeaveTheSame(locked, batches, jobs, k)
  {
    BothSum(batches, jobs, k);
    SameSums(locked, BatchesDebits(batches, k), JobsDebits(jobs, k), JobsDecrease(jobs, k));
  }

  lemma FlattenCovered(t: Table, batches: seq<seq<Job>>, jobs: seq<Job>)
    requires multiset(Flatten(batches)) == multiset(jobs) && CoversJobs(t, jobs)
    ensures CoversJobs(t, Flatten(batches)) && (SoundJobs(jobs) ==> SoundJobs(Flatten(batches)))
  {
    var all := Flatten(batches);
    forall i | 0 <= i < |all| ensures all[i] in jobs {
      assert all[i] in multiset(all);
    }
  }

  /** Any partition of the jobs into batches, in any order, does what settling trade by trade and
      releasing job by job does exactly if in every row both sequences of clamped debits leave the same.
      Nothing is assumed but that the rows are there: neither the signs of amounts nor of balances. */
  lemma BatchesExactly(t: Table, batches: seq<seq<Job>>, jobs: seq<Job>)
    requires multiset(Flatten(batches)) == multiset(jobs) && CoversJobs(t, jobs)
    ensures PersistBatches(t, batches) == PersistSlowly(t, jobs) <==>
      forall k :: k in t ==> LeaveTheSame(t[k].locked, batches, jobs, k)
  {
    FlattenCovered(t, batches, jobs);
    BatchesMoveAs(t, batches, jobs);
    PersistSlowlyMoves(t, jobs);
    SameMoves(t, PersistBatches(t, batches), PersistSlowly(t, jobs),
              k => BatchesDebits(batches, k), k => JobsDebits(jobs, k), k => JobsIncrease(jobs, k));
    forall k | k in t
      ensures Clamped(t[k].locked, BatchesDebits(batches, k)) == Clamped(t[k].locked, JobsDebits(jobs, k))
        <==> LeaveTheSame(t[k].locked, batches, jobs, k)
    {
      ClampedTheSame(t[k].locked, batches, jobs, k);
    }
  }

  lemma BatchesMoveAs(t: Table, batches: seq<seq<Job>>, jobs: seq<Job>)
    requires multiset(Flatten(batches)) == multiset(jobs) && CoversJobs(t, Flatten(batches))
    ensures Moved(t, PersistBatches(t, batches), k => BatchesDebits(batches, k), k => JobsIncrease(jobs, k))
  {
    PersistBatchesMoves(t, batches);
    forall k ensures JobsIncrease(Flatten(batches), k) == JobsIncrease(jobs, k) {
      SameJobsSameSums(Flatten(batches), jobs, k);
    }
  }

  lemma {:induction false} JobsDebitsNonNegative(jobs: seq<Job>, k: Key)
    requires SoundJobs(jobs)
    ensures AllNonNegative(JobsDebits(jobs, k)) && AllNonNegative(ReleasesDebits(jobs, k))
    ensures Sound(AllTrades(jobs))
  {
    if jobs != [] {
      assert SoundJobs(jobs[1..]) && Sound(jobs[0].trades);
      DebitsNonNegative(jobs[0].trades, k);
      JobsDebitsNonNegative(jobs[1..], k);
    }
  }

  lemma NonNegativeConcat(a: seq<int>, b: seq<int>)
    requires AllNonNegative(a) && AllNonNegative(b)
    ensures AllNonNegative(a + b)
  {
  }

  lemma BatchDebitsNonNegative(jobs: seq<Job>, k: Key)
    requires SoundJobs(jobs)
    ensures AllNonNegative(SummedDebit(AllTrades(jobs), k) + ReleasesDebits(jobs, k))
  {
    JobsDebitsNonNegative(jobs, k);
    DecreaseSound(AllTrades(jobs), k);
  }

  lemma {:induction false} BatchesDebitsNonNegative(batches: seq<seq<Job>>, k: Key)
    requires SoundJobs(Flatten(batches))
    ensures AllNonNegative(BatchesDebits(batches, k))
  {
    if batches != [] {
      var first, more, all := batches[0], Flatten(batches[1..]), Flatten(batches);
      assert forall i :: 0 <= i < |first| ==> first[i] == all[i];
      assert forall i :: 0 <= i < |more| ==> more[i] == all[|first| + i];
      BatchDebitsNonNegative(first, k);
      BatchesDebitsNonNegative(batches[1..], k);
      NonNegativeConcat(SummedDebit(AllTrades(first), k) + ReleasesDebits(first, k), BatchesDebits(batches[1..], k));
    }
  }

  /** The jobs have a trade that touches the row. */
  predicate TouchedBy(jobs: seq<Job>, k: Key) { k in Touched(AllTrades(jobs)) }

  lemma {:induction false} BatchesDebited(batches: seq<seq<Job>>, k: Key)
    ensures BatchesDebits(batches, k) != [] <==> TouchedBy(Flatten(batches), k) || JobsDebits(Flatten(batches), k) != []
  {
    if batches != [] {
      var first, more := batches[0], Flatten(batches[1..]);
      BatchesDebited(batches[1..], k);
      BatchDebited(first, k);
      TouchedConcat(first, more, k);
    }
  }

  lemma {:induction false} BatchDebited(jobs: seq<Job>, k: Key)
    ensures JobsDebits(jobs, k) != [] ==> TouchedBy(jobs, k) || ReleasesDebits(jobs, k) != []
    ensures ReleasesDebits(jobs, k) != [] ==> JobsDebits(jobs, k) != []
  {
    if jobs != [] {
      BatchDebited(jobs[1..], k);
      DebitsSum(jobs[0].trades, k);
      DeltaConcat(jobs[0].trades, AllTrades(jobs[1..]), k);
    }
  }

  lemma {:induction false} TradesConcat(a: seq<Job>, b: seq<Job>)
    ensures AllTrades(a + b) == AllTrades(a) + AllTrades(b)
  {
    if a == [] {
      assert a + b == b;
    } else {
      assert (a + b)[0] == a[0] && (a + b)[1..] == a[1..] + b;
      TradesConcat(a[1..], b);
    }
  }

  lemma {:induction false} JobsDebitsConcat(a: seq<Job>, b: seq<Job>, k: Key)
    ensures JobsDebits(a + b, k) == JobsDebits(a, k) + JobsDebits(b, k)
  {
    if a == [] {
      assert a + b == b;
    } else {
      assert (a + b)[0] == a[0] && (a + b)[1..] == a[1..] + b;
      JobsDebitsConcat(a[1..], b, k);
    }
  }

  lemma TouchedConcat(a: seq<Job>, b: seq<Job>, k: Key)
    ensures TouchedBy(a + b, k) <==> TouchedBy(a, k) || TouchedBy(b, k)
    ensures JobsDebits(a + b, k) == JobsDebits(a, k) + JobsDebits(b, k)
  {
    TradesConcat(a, b);
    DeltaConcat(AllTrades(a), AllTrades(b), k);
    JobsDebitsConcat(a, b, k);
  }

  lemma {:induction false} SameJobsSameRows(a: seq<Job>, b: seq<Job>, k: Key)
    requires multiset(a) == multiset(b)
    ensures TouchedBy(a, k) <==> TouchedBy(b, k)
    ensures JobsDebits(a, k) != [] <==> JobsDebits(b, k) != []
  {
    if a == [] {
      assert |multiset(b)| == |b|;
    } else {
      var j, more := a[0], a[1..];
      assert a == [j] + more;
      assert j in multiset(b);
      var i :| 0 <= i < |b| && b[i] == j;
      var near, far := b[..i], b[i + 1..];
      assert b == near + [j] + far;
      TakeOut(more, near, far, j);
      SameJobsSameRows(more, near + far, k);
      TouchedConcat([j], more, k);
      TouchedConcat(near + [j], far, k);
      TouchedConcat(near, [j], k);
      TouchedConcat(near, far, k);
    }
  }

  lemma SoundTheSame(locked: int, batches: seq<seq<Job>>, jobs: seq<Job>, k: Key)
    requires multiset(Flatten(batches)) == multiset(jobs) && SoundJobs(jobs) && SoundJobs(Flatten(batches))
    ensures LeaveTheSame(locked, batches, jobs, k)
      <==> (locked < 0 && TouchedBy(jobs, k) ==> JobsDebits(jobs, k) != [])
  {
    JobsDebitsNonNegative(jobs, k);
    NonNegativeDebits(JobsDebits(jobs, k));
    BatchesDebitsNonNegative(batches, k);
    NonNegativeDebits(BatchesDebits(batches, k));
    BatchesDebited(batches, k);
    SameJobsSameRows(Flatten(batches), jobs, k);
    JobsSum(jobs, k);
  }

  /** Batch independence.  If no trade and no release moves anything backwards, any partition of the jobs
      into batches, in any order, leaves the table that settling trade by trade and releasing job by job
      leaves, if and only if no row in debt is touched that is neither debited nor released. */
  lemma BatchIndependence(t: Table, batches: seq<seq<Job>>, jobs: seq<Job>)
    requires multiset(Flatten(batches)) == multiset(jobs)
    requires CoversJobs(t, jobs) && SoundJobs(jobs)
    ensures PersistBatches(t, batches) == PersistSlowly(t, jobs) <==>
      forall k :: k in t && t[k].locked < 0 && TouchedBy(jobs, k) ==> JobsDebits(jobs, k) != []
  {
    BatchesExactly(t, batches, jobs);
    FlattenCovered(t, batches, jobs);
    forall k | k in t
      ensures LeaveTheSame(t[k].locked, batches, jobs, k)
        <==> (t[k].locked < 0 && TouchedBy(jobs, k) ==> JobsDebits(jobs, k) != [])
    {
      SoundTheSame(t[k].locked, batches, jobs, k);
    }
  }

  // ---- Totals --------------------------------------------------------------------------------------

  function Weight(t: Table, k: Key, asset: Asset): int {
    if k in t && k.asset == asset then t[k].available + t[k].locked else 0
  }

  /** Everything that all users together have of an asset. */
  ghost function Total(t: Table, asset: Asset): int
    decreases |t|
  {
    if t == map[] then 0
    else
      var k :| k in t;
      Weight(t, k, asset) + Total(t - {k}, asset)
  }

  lemma {:induction false} TotalWithout(t: Table, k: Key, asset: Asset)
    requires k in t
    ensures Total(t, asset) == Weight(t, k, asset) + Total(t - {k}, asset)
    decreases |t|
  {
    var k' :| k' in t && Total(t, asset) == Weight(t, k', asset) + Total(t - {k'}, asset);
    if k' != k {
      TotalWithout(t - {k'}, k, asset);
      TotalWithout(t - {k}, k', asset);
      assert t - {k'} - {k} == t - {k} - {k'};
      assert Weight(t - {k'}, k, asset) == Weight(t, k, asset);
      assert Weight(t - {k}, k', asset) == Weight(t, k', asset);
    }
  }

  lemma TotalPut(t: Table, k: Key, b: Balance, asset: Asset)
    ensures Total(t[k := b], asset) == Total(t, asset) - Weight(t, k, asset)
      + (if k.asset == asset then b.available + b.locked else 0)
  {
    TotalWithout(t[k := b], k, asset);
    assert t[k := b] - {k} == t - {k};
    if k in t {
      TotalWithout(t, k, asset);
    } else {
      assert t - {k} == t;
    }
  }

  // ---- Persisting without a clamp -----------------------------------------------------------------

  /** The row, or nothing at all. */
  function At(t: Table, k: Key): Balance { if k in t then t[k] else Balance(0, 0) }

  function LockedAt(t: Table, k: Key): int { At(t, k).locked }

  /** The four upserts of one trade. */
  function PostTrade(t: Table, trade: Trade): Table {
    var t1 := Upsert(t, BuyerQuote(trade), Delta(Cost(trade), 0));
    var t2 := Upsert(t1, BuyerBase(trade), Delta(0, trade.quantity));
    var t3 := Upsert(t2, SellerBase(trade), Delta(trade.quantity, 0));
    Upsert(t3, SellerQuote(trade), Delta(0, Cost(trade)))
  }

  function PostTrades(t: Table, trades: seq<Trade>): Table
    decreases trades
  {
    if trades == [] then t else PostTrades(PostTrade(t, trades[0]), trades[1..])
  }

  lemma PostTradeAt(t: Table, trade: Trade, k: Key)
    requires trade.quantity >= 0 && Cost(trade) >= 0 && LockedAt(t, k) >= 0
    ensures At(PostTrade(t, trade), k) == Shift(At(t, k), TradeDecrease(trade, k), TradeIncrease(trade, k))
    ensures PostTrade(t, trade).Keys == t.Keys + TradeKeys(trade)
  {
  }

  lemma {:induction false} PostTradesAt(t: Table, trades: seq<Trade>, k: Key)
    requires Sound(trades) && LockedAt(t, k) >= 0
    ensures At(PostTrades(t, trades), k) == Shift(At(t, k), Decrease(trades, k), Increase(trades, k))
    ensures PostTrades(t, trades).Keys == t.Keys + Touched(trades)
    decreases trades
  {
    if trades != [] {
      PostTradeAt(t, trades[0], k);
      assert Sound(trades[1..]);
      PostTradesAt(PostTrade(t, trades[0]), trades[1..], k);
      DecreaseSound(trades[1..], k);
      ShiftTwice(At(t, k), TradeDecrease(trades[0], k), TradeIncrease(trades[0], k), Decrease(trades[1..], k),
          Increase(trades[1..], k));
    }
  }

  /** The aggregated statements are the upserts one by one, missing rows included. */
  lemma DeltasArePosts(t: Table, trades: seq<Trade>)
    requires Sound(trades) && NoDebt(t)
    ensures ApplyDeltas(t, trades) == PostTrades(t, trades)
  {
    PostTradesAt(t, trades, Key(0, 0));
    forall k | k in ApplyDeltas(t, trades) ensures ApplyDeltas(t, trades)[k] == PostTrades(t, trades)[k] {
      PostTradesAt(t, trades, k);
      DecreaseSound(trades, k);
      if k !in Touched(trades) {
        Untouched(trades, k);
      }
    }
  }

  lemma TotalUpsert(t: Table, k: Key, d: Delta, asset: Asset)
    requires 0 <= d.decrease <= LockedAt(t, k)
    ensures Total(Upsert(t, k, d), asset) == Total(t, asset) + if k.asset == asset then d.increase - d.decrease else 0
  {
    TotalPut(t, k, Upsert(t, k, d)[k], asset);
  }

  lemma TotalPostTrade(t: Table, trade: Trade, asset: Asset)
    requires trade.quantity >= 0 && Cost(trade) >= 0
    requires forall k :: LockedAt(t, k) >= TradeDecrease(trade, k)
    ensures Total(PostTrade(t, trade), asset) == Total(t, asset)
  {
    var bq, bb, sb, sq := BuyerQuote(trade), BuyerBase(trade), SellerBase(trade), SellerQuote(trade);
    var t1 := Upsert(t, bq, Delta(Cost(trade), 0));
    var t2 := Upsert(t1, bb, Delta(0, trade.quantity));
    var t3 := Upsert(t2, sb, Delta(trade.quantity, 0));
    assert LockedAt(t, bq) >= TradeDecrease(trade, bq) >= Cost(trade);
    TotalUpsert(t, bq, Delta(Cost(trade), 0), asset);
    assert LockedAt(t, bb) >= TradeDecrease(trade, bb) >= 0;
    assert LockedAt(t1, bb) >= 0;
    TotalUpsert(t1, bb, Delta(0, trade.quantity), asset);
    assert LockedAt(t, sb) >= TradeDecrease(trade, sb) >= trade.quantity;
    assert LockedAt(t2, sb) >= trade.quantity;
    TotalUpsert(t2, sb, Delta(trade.quantity, 0), asset);
    assert LockedAt(t, sq) >= TradeDecrease(trade, sq) >= 0;
    assert LockedAt(t3, sq) >= 0;
    TotalUpsert(t3, sq, Delta(0, Cost(trade)), asset);
  }

  lemma {:induction false} TotalPostTrades(t: Table, trades: seq<Trade>, asset: Asset)
    requires Sound(trades) && forall k :: LockedAt(t, k) >= Decrease(trades, k)
    ensures Total(PostTrades(t, trades), asset) == Total(t, asset)
    decreases trades
  {
    if trades != [] {
      var more := trades[1..];
      assert Sound(more);
      forall k ensures LockedAt(t, k) >= TradeDecrease(trades[0], k)
        ensures LockedAt(PostTrade(t, trades[0]), k) >= Decrease(more, k)
      {
        DecreaseSound(more, k);
        assert LockedAt(t, k) >= Decrease(trades, k);
        PostTradeAt(t, trades[0], k);
      }
      TotalPostTrade(t, trades[0], asset);
      TotalPostTrades(PostTrade(t, trades[0]), more, asset);
    }
  }

  /** When every row has the locked units that a job takes, persisting the job clamps nowhere: it
      takes exactly those units, adds to available, and leaves the total of every asset. */
  lemma PersistJobExact(t: Table, job: Job)
    requires SoundJobs([job]) && NoDebt(t)
    requires forall k :: LockedAt(t, k) >= JobDecrease(job, k)
    ensures NoDebt(PersistJob(t, job))
    ensures forall k :: LockedAt(PersistJob(t, job), k) == LockedAt(t, k) - JobDecrease(job, k)
    ensures forall k :: At(PersistJob(t, job), k).available == At(t, k).available + JobIncrease(job, k)
    ensures forall a :: Total(PersistJob(t, job), a) == Total(t, a)
  {
    var t1 := ApplyDeltas(t, job.trades);
    assert [job][0] == job;
    DeltasArePosts(t, job.trades);
    forall k
      ensures At(t1, k)
           == Balance(At(t, k).available + Increase(job.trades, k), LockedAt(t, k) - Decrease(job.trades, k))
      ensures LockedAt(t1, k) >= ReleasedAt(job.order, k) >= 0
      ensures LockedAt(t, k) >= Decrease(job.trades, k)
    {
      assert LockedAt(t, k) >= JobDecrease(job, k);
      PostTradesAt(t, job.trades, k);
    }
    forall a ensures Total(PersistJob(t, job), a) == Total(t, a) {
      TotalPostTrades(t, job.trades, a);
      ReleaseTotal(t1, job.order, a);
    }
    ReleaseExact(t1, job.order);
  }

  /** A release that the locked units cover moves no unit away. */
  lemma ReleaseTotal(t: Table, order: Order, a: Asset)
    requires LockedAt(t, LockKey(order)) >= ReleasedAt(order, LockKey(order)) >= 0
    ensures Total(Release(t, order), a) == Total(t, a)
  {
    var key := LockKey(order);
    if Releases(order) && key in t {
      TotalPut(t, key, Unlock(t, key, LockedFor(order, order.remaining))[key], a);
    }
  }

  /** A row after a release that the locked units cover. */
  function Freed(b: Balance, amount: int): Balance { Balance(b.available + amount, b.locked - amount) }

  lemma ReleaseExact(t: Table, order: Order)
    requires forall k :: LockedAt(t, k) >= ReleasedAt(order, k) >= 0
    ensures forall k :: At(Release(t, order), k) == Freed(At(t, k), ReleasedAt(order, k))
  {
    forall k ensures At(Release(t, order), k) == Freed(At(t, k), ReleasedAt(order, k)) {
      assert LockedAt(t, k) >= ReleasedAt(order, k) >= 0;
    }
  }

  // ---- Updates without inserts ---------------------------------------------------------------------

  /** Rows that drop out take their units with them. */
  lemma {:induction false} TotalDropped(t: Table, gone: set<Key>, a: Asset)
    requires gone <= t.Keys && forall k :: k in gone ==> Weight(t, k, a) >= 0
    ensures Total(t - gone, a) <= Total(t, a)
    ensures Total(t - gone, a) == Total(t, a) <==> forall k :: k in gone ==> Weight(t, k, a) == 0
    decreases |gone|
  {
    if gone == {} {
      assert t - gone == t;
    } else {
      var k :| k in gone;
      TotalWithout(t, k, a);
      var less := t - {k};
      assert forall other :: other in gone - {k} ==> Weight(less, other, a) == Weight(t, other, a);
      TotalDropped(less, gone - {k}, a);
      assert less - (gone - {k}) == t - gone;
      assert gone == (gone - {k}) + {k};
    }
  }

  /** Every credit finds its row. */
  ghost predicate CreditsLand(t: Table, trades: seq<Trade>) { forall k :: k !in t ==> Increase(trades, k) == 0 }

  ghost predicate LandsIn(t: Table, trades: seq<Trade>, a: Asset) {
    forall k :: k !in t && k.asset == a ==> Increase(trades, k) == 0
  }

  lemma ExistingTotal(t: Table, trades: seq<Trade>, a: Asset)
    requires Sound(trades) && NoDebt(t) && forall k :: LockedAt(t, k) >= Decrease(trades, k)
    ensures Total(UpdateExisting(t, trades), a) <= Total(t, a)
    ensures Total(UpdateExisting(t, trades), a) == Total(t, a)
      <==> LandsIn(t, trades, a)
  {
    var all, gone := ApplyDeltas(t, trades), Touched(trades) - t.Keys;
    DeltasArePosts(t, trades);
    TotalPostTrades(t, trades, a);
    forall k | k in gone ensures Weight(all, k, a) == (if k.asset == a then Increase(trades, k) else 0) >= 0 {
      DecreaseSound(trades, k);
    }
    TotalDropped(all, gone, a);
    assert all - gone == UpdateExisting(t, trades);
    forall k | k !in t && k !in gone ensures Increase(trades, k) == 0 {
      Untouched(trades, k);
    }
  }

  /** Rows after the gateway's update, against the one that inserts. */
  lemma ExistingAt(t: Table, trades: seq<Trade>, k: Key)
    requires forall k :: LockedAt(t, k) >= Decrease(trades, k) >= 0
    ensures LockedAt(UpdateExisting(t, trades), k) == LockedAt(ApplyDeltas(t, trades), k)
    ensures k in t ==> At(UpdateExisting(t, trades), k) == At(ApplyDeltas(t, trades), k)
    ensures k !in t ==> At(UpdateExisting(t, trades), k).available == 0
    ensures k !in t ==> At(ApplyDeltas(t, trades), k).available == Increase(trades, k)
  {
    assert LockedAt(t, k) >= Decrease(trades, k) >= 0;
    if k !in Touched(trades) {
      Untouched(trades, k);
    }
  }

  /** The gateway's path keeps the total of every asset exactly if every credit finds its row; then it
      leaves in every row what the path that inserts missing rows leaves. */
  lemma ExistingExactly(t: Table, job: Job)
    requires SoundJobs([job]) && NoDebt(t)
    requires forall k :: LockedAt(t, k) >= JobDecrease(job, k)
    ensures (forall a :: SameTotal(t, PersistJobExisting(t, job), a)) <==> CreditsLand(t, job.trades)
    ensures CreditsLand(t, job.trades) ==> forall k :: At(PersistJobExisting(t, job), k) == At(PersistJob(t, job), k)
  {
    var t1, t2 := UpdateExisting(t, job.trades), ApplyDeltas(t, job.trades);
    assert [job][0] == job;
    forall k
      ensures LockedAt(t, k) >= Decrease(job.trades, k) >= 0
      ensures LockedAt(t, k) - Decrease(job.trades, k) >= ReleasedAt(job.order, k) >= 0
    {
      assert LockedAt(t, k) >= JobDecrease(job, k);
      DecreaseSound(job.trades, k);
    }
    DeltasArePosts(t, job.trades);
    forall k
      ensures LockedAt(t1, k) == LockedAt(t2, k) >= ReleasedAt(job.order, k) >= 0
      ensures CreditsLand(t, job.trades) ==> At(t1, k) == At(t2, k)
    {
      ExistingAt(t, job.trades, k);
      PostTradesAt(t, job.trades, k);
    }
    ReleaseExact(t1, job.order);
    ReleaseExact(t2, job.order);
    forall k ensures CreditsLand(t, job.trades) ==> At(PersistJobExisting(t, job), k) == At(PersistJob(t, job), k) {
      assert CreditsLand(t, job.trades) ==> At(t1, k) == At(t2, k);
      assert At(Release(t1, job.order), k) == Freed(At(t1, k), ReleasedAt(job.order, k));
      assert At(Release(t2, job.order), k) == Freed(At(t2, k), ReleasedAt(job.order, k));
    }
    forall a ensures SameTotal(t, PersistJobExisting(t, job), a) <==> LandsIn(t, job.trades, a) {
      ExistingTotal(t, job.trades, a);
      ReleaseTotal(t1, job.order, a);
    }
    AllTotals(t, PersistJobExisting(t, job), job.trades);
  }

  ghost predicate SameTotal(t: Table, t': Table, a: Asset) { Total(t', a) == Total(t, a) }

  lemma AllTotals(t: Table, t': Table, trades: seq<Trade>)
    requires forall a :: SameTotal(t, t', a) <==> LandsIn(t, trades, a)
    ensures (forall a :: SameTotal(t, t', a)) <==> CreditsLand(t, trades)
  {
    LandsByAsset(t, trades);
    if forall a :: SameTotal(t, t', a) {
      forall a ensures LandsIn(t, trades, a) {
        assert SameTotal(t, t', a);
      }
    }
  }

  lemma LandsByAsset(t: Table, trades: seq<Trade>)
    ensures CreditsLand(t, trades) <==> forall a :: LandsIn(t, trades, a)
  {
    if forall a :: LandsIn(t, trades, a) {
      forall k | k !in t ensures Increase(trades, k) == 0 {
        assert LandsIn(t, trades, k.asset);
      }
    }
  }
}
