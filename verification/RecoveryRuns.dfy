/** Runs that persist no match before those of the orders that it filled, with cancellations at any
    time: the rows follow the book, and a cold start rebuilds it.  Any other order of persistence loses
    a fill.
    (crates/gateway/src/worker.rs, crates/api/src/worker.rs, crates/shared/src/cache.rs) */
module RecoveryRuns {
  import opened Types
  import opened Engine
  import opened MatchLaws
  import opened EquivalenceLaws
  import opened SortedBook
  import opened Books
  import opened Ledger
  import opened Exchange
  import opened SolvencyRuns
  import opened Recovery

  // ---- The invariant -----------------------------------------------------------------------------

  function Resting(s: State, id: OrderId): Option<Order> {
    Or(Or(Find(s.books.bids, id), Find(s.books.asks, id)), Find(s.stopped, id))
  }

  /** The row of `id` once everything pending is persisted in order. */
  function Settled(s: State, id: OrderId): Option<Order> { Drained(RowAt(s.rows, id), s.pending, id) }

  /** An id rests in one place at most. */
  predicate Once(s: State, id: OrderId) {
    && (Find(s.books.bids, id).Some? ==> Find(s.books.asks, id).None? && Find(s.stopped, id).None?)
    && (Find(s.books.asks, id).Some? ==> Find(s.stopped, id).None?)
  }

  ghost predicate Shows(s: State) {
    forall id :: OpenOnly(Settled(s, id)) == Resting(s, id) && Once(s, id)
  }

  /** Pending matches are of orders that have no row yet, each of its own order. */
  ghost predicate Unseen(s: State) {
    && (forall i :: 0 <= i < |s.pending| ==> s.pending[i].order.id !in s.rows)
    && (forall i, j :: 0 <= i < j < |s.pending| ==> s.pending[i].order.id != s.pending[j].order.id)
  }

  ghost predicate AllRest(book: seq<Order>) {
    forall i :: 0 <= i < |book| ==> MayRest(book[i].side, book[i])
  }

  ghost predicate Tracked(s: State) {
    && ValidSide(Buy, s.books.bids) && ValidSide(Sell, s.books.asks)
    && Shows(s) && Unseen(s) && AllRest(s.stopped)
  }

  // ---- Placing -----------------------------------------------------------------------------------

  lemma {:induction false} StoppedRest(order: Order, book: seq<Order>)
    requires AllRest(book)
    ensures AllRest(WalkStopped(order, book))
    decreases book
  {
    if !Ends(order, book) {
      assert AllRest(book[1..]);
      StoppedRest(Next(order, book[0]), book[1..]);
    }
  }

  /** The two sides after a submission, order by order. */
  lemma SubmitFinds(b: Books, order: Order, id: OrderId)
    requires ValidSide(Buy, b.bids) && ValidSide(Sell, b.asks) && NewOrder(order)
    requires order.id !in b.AllIds()
    ensures var side, o := order.side.Opposite(), Match(order, b.Of(order.side.Opposite()));
      var after, rest := Submit(b, order), o.result.incoming;
      && after.Of(side) == Live(o.book)
      && ValidSide(side, after.Of(side)) && ValidSide(order.side, after.Of(order.side))
      && rest == order.(remaining := rest.remaining, status := rest.status)
      && Find(after.Of(order.side), id) == (if id == order.id then OpenOnly(Some(rest)) else Find(b.Of(order.side), id))
  {
    var side, rest := order.side.Opposite(), Incoming(b, order);
    ReportsAgree(order, b.Of(side));
    ValidFacts(side, b.Of(side));
    FillAndStatus(order, b.Of(side));
    FindFacts(b.Of(order.side), id);
    if rest.IsOpen() {
      RemainderMayRest(b, order);
      FindUpserted(order.side, b.Of(order.side), rest, id);
      UpsertFacts(order.side, b.Of(order.side), rest);
    }
  }

  /** The row of one id follows the placement of an order. */
  lemma PlaceShows(s: State, order: Order, id: OrderId)
    requires Tracked(s) && NewOrder(order) && Lock(s.table, order).Some? && Settled(s, order.id).None?
    ensures OpenOnly(Settled(Place(s, order), id)) == Resting(Place(s, order), id) && Once(Place(s, order), id)
  {
    var side := order.side.Opposite();
    var book := s.books.Of(side);
    var o := Match(order, book);
    var job := Job(o.result.incoming, o.result.trades);
    var stopped := StoppedBy(order, book);
    NotResting(s, order.id);
    SubmitFinds(s.books, order, id);
    FindConcat(s.stopped, stopped, id);
    DrainedConcat(RowAt(s.rows, id), s.pending, job, id);
    var row := Settled(s, id);
    assert OpenOnly(row) == Resting(s, id) && Once(s, id);
    var subject := if id == order.id then job.order else if row.Some? then row.value else order;
    MatchFollows(order, book, subject, id);
    if row.Some? && !row.value.IsOpen() {
      FillClosed(row.value, order.side, o.result.trades, id);
    }
  }

  lemma PlaceKeepsUnseen(s: State, order: Order)
    requires Unseen(s) && Settled(s, order.id).None? && Lock(s.table, order).Some?
    requires Incoming(s.books, order).id == order.id
    ensures Unseen(Place(s, order))
  {
    DrainedFacts(RowAt(s.rows, order.id), s.pending, order.id);
  }

  /** An id without a row is not in the book. */
  lemma NotResting(s: State, id: OrderId)
    requires Tracked(s) && Settled(s, id).None?
    ensures id !in s.books.AllIds() && Resting(s, id).None?
  {
    assert OpenOnly(Settled(s, id)) == Resting(s, id);
    FindFacts(s.books.bids, id);
    FindFacts(s.books.asks, id);
  }

  lemma PlaceKeepsTracked(s: State, order: Order)
    requires Tracked(s) && NewOrder(order) && Settled(s, order.id).None?
    ensures Tracked(Place(s, order))
  {
    if Lock(s.table, order).Some? {
      var s', side := Place(s, order), order.side.Opposite();
      NotResting(s, order.id);
      SubmitFinds(s.books, order, order.id);
      PlaceKeepsUnseen(s, order);
      ValidFacts(side, s.books.Of(side));
      StoppedRest(order, s.books.Of(side));
      forall id ensures OpenOnly(Settled(s', id)) == Resting(s', id) && Once(s', id) {
        PlaceShows(s, order, id);
      }
    }
  }

  // ---- Persisting and cancelling -------------------------------------------------------------------

  function OpenLeft(order: Order): int { if order.IsOpen() then order.remaining else 0 }

  /** Pending matches fill orders of earlier matches, no order beyond what its match left of it, and
      no order that has neither a row nor a match pending. */
  ghost predicate Causal(s: State) {
    && Ordered(s.pending)
    && (forall j :: 0 <= j < |s.pending| ==>
          PendingFilled(s.pending, s.pending[j].order.id) <= OpenLeft(s.pending[j].order))
    && (forall i, id :: 0 <= i < |s.pending| && JobFilled(s.pending[i], id) != 0 ==> Settled(s, id).Some?)
  }

  /** The row of an id once everything pending is persisted, in closed form. */
  lemma SettledForm(s: State, id: OrderId)
    requires Unseen(s) && Ordered(s.pending)
    ensures Settled(s, id) == FilledRow(Or(RowAt(s.rows, id), OwnOrder(s.pending, id)), PendingFilled(s.pending, id))
  {
    OwnOrderFacts(s.pending, id);
    DrainedForm(RowAt(s.rows, id), s.pending, id);
  }

  function Without(jobs: seq<Job>, i: nat): (r: seq<Job>)
    requires i < |jobs|
    ensures |r| == |jobs| - 1
    ensures forall j :: 0 <= j < |r| ==> r[j] == jobs[if j < i then j else j + 1]
  {
    jobs[..i] + jobs[i + 1..]
  }

  lemma FilledWithout(jobs: seq<Job>, i: nat, id: OrderId)
    requires i < |jobs|
    ensures PendingFilled(Without(jobs, i), id) == PendingFilled(jobs, id) - JobFilled(jobs[i], id)
  {
    var near, job, far := jobs[..i], jobs[i], jobs[i + 1..];
    assert jobs == near + [job] + far && [job][1..] == [];
    PendingConcat(near + [job], far, id);
    PendingConcat(near, [job], id);
    PendingConcat(near, far, id);
  }

  lemma OrderedWithout(jobs: seq<Job>, i: nat)
    requires Ordered(jobs) && i < |jobs|
    ensures Ordered(Without(jobs, i))
  {
    var less := Without(jobs, i);
    forall j, k | 0 <= j <= k < |less| ensures JobFilled(less[j], less[k].order.id) == 0 {
      assert less[j] == jobs[if j < i then j else j + 1] && less[k] == jobs[if k < i then k else k + 1];
    }
    assert forall j :: 0 <= j < |less| ==> less[j] == jobs[if j < i then j else j + 1];
  }

  lemma {:induction false} OwnElsewhere(jobs: seq<Job>, id: OrderId)
    requires forall j :: 0 <= j < |jobs| ==> jobs[j].order.id != id
    ensures OwnOrder(jobs, id) == None
  {
    if jobs != [] {
      OwnElsewhere(jobs[1..], id);
    }
  }

  lemma {:induction false} OwnWithout(jobs: seq<Job>, i: nat, id: OrderId)
    requires i < |jobs| && forall j, k :: 0 <= j < k < |jobs| ==> jobs[j].order.id != jobs[k].order.id
    ensures OwnOrder(Without(jobs, i), id) == if id == jobs[i].order.id then None else OwnOrder(jobs, id)
  {
    var less := Without(jobs, i);
    if i == 0 {
      assert less == jobs[1..];
      if id == jobs[0].order.id {
        OwnElsewhere(jobs[1..], id);
      }
    } else {
      assert forall k :: 0 <= k < |jobs[1..]| ==> jobs[1..][k] == jobs[k + 1];
      OwnWithout(jobs[1..], i - 1, id);
      assert less[0] == jobs[0] && less[1..] == Without(jobs[1..], i - 1);
    }
  }

  /** Pending match `i` filled no order whose own match is still pending before it. */
  ghost predicate Harmless(s: State, i: nat)
    requires i < |s.pending|
  {
    forall j :: 0 <= j < i ==> JobFilled(s.pending[i], s.pending[j].order.id) == 0
  }

  /** A job's fills first and the others' after, against all fills on the row in the end. */
  lemma EarlyFill(row: Option<Order>, own: Option<Order>, job: Job, id: OrderId, all: int)
    requires PositiveTrades(job.trades) && JobFilled(job, job.order.id) == 0
    requires job.order.id == id ==> row.None? && own == Some(job.order)
    requires 0 <= JobFilled(job, id) <= all
    ensures var early := Or(StepRow(row, job, id), if id == job.order.id then None else own);
      var left := all - JobFilled(job, id);
      && (row.Some? || own.None? || JobFilled(job, id) == 0 ==> FilledRow(early, left) == FilledRow(Or(row, own), all))
      && (row.None? && own.Some? && JobFilled(job, id) != 0 && all <= OpenLeft(own.value) ==>
            OpenOnly(FilledRow(early, left)) != OpenOnly(FilledRow(Or(row, own), all)))
  {
    StepFills(if row.Some? then row.value else job.order, job, id);
    if row.Some? {
      FillTwice(row.value, JobFilled(job, id), all - JobFilled(job, id));
    }
  }

  lemma PersistUnseen(s: State, i: nat)
    requires Unseen(s) && Ordered(s.pending) && i < |s.pending|
    ensures Unseen(Persist(s, i)) && Persist(s, i).pending == Without(s.pending, i) && Ordered(Persist(s, i).pending)
  {
    PersistRowsAt(s.rows, s.pending[i], 0);
    OrderedWithout(s.pending, i);
    var less := Without(s.pending, i);
    assert forall j :: 0 <= j < |less| ==> less[j] == s.pending[if j < i then j else j + 1];
  }

  lemma PersistForm(s: State, i: nat, id: OrderId)
    requires Unseen(s) && Ordered(s.pending) && i < |s.pending|
    ensures var job := s.pending[i];
      Settled(Persist(s, i), id) ==
        FilledRow(Or(StepRow(RowAt(s.rows, id), job, id), if id == job.order.id then None else OwnOrder(s.pending, id)),
                  PendingFilled(s.pending, id) - JobFilled(job, id))
  {
    PersistUnseen(s, i);
    PersistRowsAt(s.rows, s.pending[i], id);
    FilledWithout(s.pending, i, id);
    OwnWithout(s.pending, i, id);
    SettledForm(Persist(s, i), id);
  }

  lemma EarlyFillAllowed(s: State, i: nat, id: OrderId)
    requires Unseen(s) && Ordered(s.pending) && i < |s.pending|
    ensures var job := s.pending[i];
      && PositiveTrades(job.trades) && JobFilled(job, job.order.id) == 0
      && (job.order.id == id ==> RowAt(s.rows, id).None? && OwnOrder(s.pending, id) == Some(job.order))
      && 0 <= JobFilled(job, id) <= PendingFilled(s.pending, id)
  {
    FilledByNonNegative(s.pending[i].order.side, s.pending[i].trades, id);
    FilledWithout(s.pending, i, id);
    OrderedWithout(s.pending, i);
    PendingNonNegative(Without(s.pending, i), id);
    OwnOrderFacts(s.pending, id);
  }

  /** Persisting a pending match early changes what the row of an id comes to only if the match fills
      the id, and its own match is pending; then the fill is lost. */
  lemma PersistSettles(s: State, i: nat, id: OrderId)
    requires Unseen(s) && Causal(s) && i < |s.pending|
    ensures id in s.rows || OwnOrder(s.pending, id).None? || JobFilled(s.pending[i], id) == 0 ==>
      Settled(Persist(s, i), id) == Settled(s, id)
    ensures id !in s.rows && OwnOrder(s.pending, id).Some? && JobFilled(s.pending[i], id) != 0 ==>
      OpenOnly(Settled(Persist(s, i), id)) != OpenOnly(Settled(s, id))
  {
    SettledForm(s, id);
    PersistForm(s, i, id);
    OwnFits(s, id);
    EarlyFillAllowed(s, i, id);
    EarlyFill(RowAt(s.rows, id), OwnOrder(s.pending, id), s.pending[i], id, PendingFilled(s.pending, id));
  }

  lemma OwnFits(s: State, id: OrderId)
    requires Causal(s)
    ensures OwnOrder(s.pending, id).Some? ==>
      PendingFilled(s.pending, id) <= OpenLeft(OwnOrder(s.pending, id).value)
  {
    OwnOrderFacts(s.pending, id);
    if OwnOrder(s.pending, id).Some? {
      var j :| 0 <= j < |s.pending| && s.pending[j].order.id == id;
      assert PendingFilled(s.pending, s.pending[j].order.id) <= OpenLeft(s.pending[j].order);
    }
  }

  /** In such states the API's path does what the gateway's rows and the inserting settlement do: the
      row of a pending match's own order is not there yet. */
  lemma ApiPersists(s: State, i: nat)
    requires Unseen(s) && Ordered(s.pending) && i < |s.pending|
    ensures PersistByApi(s, i) == Persist(s, i)
  {
    var job := s.pending[i];
    var inserted := InsertRow(s.rows, job.order);
    assert JobFilled(s.pending[i], s.pending[i].order.id) == 0;
    FillRowsAt(inserted, job.order, job.trades, job.order.id);
    FillOneForm(job.order, job.order.side, job.trades, job.order.id);
    var filled := FillRows(inserted, job.order, job.trades);
    assert filled[job.order.id] == job.order && filled[job.order.id := job.order] == filled;
  }

  /** Persisting a pending match out of turn keeps the rows in step with the book exactly if it is
      harmless. */
  lemma PersistExactly(s: State, i: nat)
    requires Tracked(s) && Causal(s) && i < |s.pending|
    ensures Tracked(Persist(s, i)) <==> Harmless(s, i)
    ensures Harmless(s, i) ==> forall id :: Settled(Persist(s, i), id) == Settled(s, id)
  {
    var s' := Persist(s, i);
    if Harmless(s, i) {
      forall id
        ensures Settled(s', id) == Settled(s, id)
        ensures OpenOnly(Settled(s', id)) == Resting(s', id) && Once(s', id)
      {
        HarmlessFor(s, i, id);
        PersistSettles(s, i, id);
        assert OpenOnly(Settled(s, id)) == Resting(s, id) && Once(s, id);
      }
      PersistUnseen(s, i);
    } else {
      var j :| 0 <= j < i && JobFilled(s.pending[i], s.pending[j].order.id) != 0;
      var id := s.pending[j].order.id;
      OwnOrderFacts(s.pending, id);
      PersistSettles(s, i, id);
      assert OpenOnly(Settled(s, id)) == Resting(s, id) == Resting(s', id);
    }
  }

  lemma HarmlessFor(s: State, i: nat, id: OrderId)
    requires Causal(s) && i < |s.pending| && Harmless(s, i)
    ensures OwnOrder(s.pending, id).Some? ==> JobFilled(s.pending[i], id) == 0
  {
    OwnOrderFacts(s.pending, id);
    if OwnOrder(s.pending, id).Some? {
      var j :| 0 <= j < |s.pending| && s.pending[j].order.id == id;
      assert j < i || JobFilled(s.pending[i], s.pending[j].order.id) == 0;
    }
  }

  lemma PersistKeepsCausal(s: State, i: nat)
    requires Tracked(s) && Causal(s) && i < |s.pending| && Harmless(s, i)
    ensures Causal(Persist(s, i))
  {
    var s', less := Persist(s, i), Without(s.pending, i);
    PersistUnseen(s, i);
    PersistExactly(s, i);
    forall j | 0 <= j < |less| ensures PendingFilled(less, less[j].order.id) <= OpenLeft(less[j].order) {
      var id, k := less[j].order.id, if j < i then j else j + 1;
      FilledWithout(s.pending, i, id);
      FilledByNonNegative(s.pending[i].order.side, s.pending[i].trades, id);
      assert PendingFilled(s.pending, s.pending[k].order.id) <= OpenLeft(s.pending[k].order);
    }
    forall j, id | 0 <= j < |less| && JobFilled(less[j], id) != 0 ensures Settled(s', id).Some? {
      assert less[j] == s.pending[if j < i then j else j + 1];
    }
  }

  /** The new match fills what rests only, and its own order is new. */
  lemma PlaceFills(s: State, order: Order, id: OrderId)
    requires Tracked(s) && Causal(s) && NewOrder(order) && Settled(s, order.id).None?
    ensures var side := order.side.Opposite();
      var trades := Match(order, s.books.Of(side)).result.trades;
      && PositiveTrades(trades) && FilledBy(order.side, trades, id) >= 0
      && (FilledBy(order.side, trades, id) > 0 ==>
            && id != order.id && Settled(s, id).Some? && Settled(s, id).value.IsOpen()
            && FilledBy(order.side, trades, id) <= Settled(s, id).value.remaining)
  {
    var book := s.books.Of(order.side.Opposite());
    MatchFilled(order, book, id);
    NotResting(s, order.id);
    FindFacts(book, order.id);
    assert OpenOnly(Settled(s, id)) == Resting(s, id) && Once(s, id);
  }

  lemma PlaceKeepsCausal(s: State, order: Order)
    requires Tracked(s) && Causal(s) && NewOrder(order) && Settled(s, order.id).None?
    ensures Causal(Place(s, order))
  {
    if Lock(s.table, order).Some? {
      var s', book := Place(s, order), s.books.Of(order.side.Opposite());
      var job := Job(Match(order, book).result.incoming, Match(order, book).result.trades);
      assert s'.pending == s.pending + [job];
      ValidFacts(order.side.Opposite(), book);
      FillAndStatus(order, book);
      PlaceOrdered(s, order, job);
      forall j | 0 <= j < |s'.pending|
        ensures PendingFilled(s'.pending, s'.pending[j].order.id) <= OpenLeft(s'.pending[j].order)
      {
        PlaceFits(s, order, job, j);
      }
      forall i, id | 0 <= i < |s'.pending| && JobFilled(s'.pending[i], id) != 0 ensures Settled(s', id).Some? {
        PlaceKnown(s, order, job, i, id);
      }
    }
  }

  lemma PlaceKnown(s: State, order: Order, job: Job, i: nat, id: OrderId)
    requires Tracked(s) && Causal(s) && NewOrder(order) && Settled(s, order.id).None?
    requires job == Job(Match(order, s.books.Of(order.side.Opposite())).result.incoming,
                        Match(order, s.books.Of(order.side.Opposite())).result.trades)
    requires job.order.side == order.side && i <= |s.pending| && JobFilled((s.pending + [job])[i], id) != 0
    ensures Drained(RowAt(s.rows, id), s.pending + [job], id).Some?
  {
    DrainedConcat(RowAt(s.rows, id), s.pending, job, id);
    PlaceFills(s, order, id);
    if i < |s.pending| {
      assert JobFilled(s.pending[i], id) != 0;
    } else {
      assert (s.pending + [job])[i] == job;
      assert JobFilled(job, id) == FilledBy(order.side, job.trades, id);
    }
    assert Settled(s, id).Some?;
  }

  lemma PlaceOrdered(s: State, order: Order, job: Job)
    requires Tracked(s) && Causal(s) && NewOrder(order) && Settled(s, order.id).None?
    requires job == Job(Match(order, s.books.Of(order.side.Opposite())).result.incoming,
                        Match(order, s.books.Of(order.side.Opposite())).result.trades)
    requires job.order.id == order.id && job.order.side == order.side
    ensures Ordered(s.pending + [job]) && PendingFilled(s.pending, order.id) == 0
    ensures forall i :: 0 <= i < |s.pending| ==> s.pending[i].order.id != order.id
  {
    var all := s.pending + [job];
    PlaceFills(s, order, order.id);
    DrainedFacts(RowAt(s.rows, order.id), s.pending, order.id);
    PendingNonNegative(s.pending, order.id);
    forall i | 0 <= i < |s.pending| ensures JobFilled(s.pending[i], order.id) == 0 {
      assert JobFilled(s.pending[i], order.id) != 0 ==> Settled(s, order.id).Some?;
    }
    forall i, j | 0 <= i <= j < |all| ensures JobFilled(all[i], all[j].order.id) == 0 {
      assert i < |s.pending| ==> all[i] == s.pending[i];
      assert j < |s.pending| ==> all[j] == s.pending[j];
    }
  }

  lemma PlaceFits(s: State, order: Order, job: Job, j: nat)
    requires Tracked(s) && Causal(s) && NewOrder(order) && Settled(s, order.id).None?
    requires job == Job(Match(order, s.books.Of(order.side.Opposite())).result.incoming,
                        Match(order, s.books.Of(order.side.Opposite())).result.trades)
    requires job.order.id == order.id && job.order.side == order.side
    requires job.order.IsOpen() ==> job.order.remaining >= 0
    requires j <= |s.pending|
    ensures var all := s.pending + [job];
      PendingFilled(all, all[j].order.id) <= OpenLeft(all[j].order)
  {
    var all := s.pending + [job];
    var id := all[j].order.id;
    PlaceOrdered(s, order, job);
    PendingConcat(s.pending, [job], id);
    assert [job][1..] == [];
    PlaceFills(s, order, id);
    if j < |s.pending| {
      assert PendingFilled(s.pending, s.pending[j].order.id) <= OpenLeft(s.pending[j].order);
      SettledForm(s, id);
      OwnOrderFacts(s.pending, id);
      PendingNonNegative(s.pending, id);
      assert s.pending[j].order.id !in s.rows;
    }
  }

  lemma CancelKeepsCausal(s: State, id: OrderId, user: UserId)
    requires Causal(s)
    ensures Causal(CancelOrder(s, id, user))
  {
    var s' := CancelOrder(s, id, user);
    forall i, x | 0 <= i < |s'.pending| && JobFilled(s'.pending[i], x) != 0 ensures Settled(s', x).Some? {
      assert Settled(s, x).Some?;
      DrainedFacts(RowAt(s.rows, x), s.pending, x);
      DrainedFacts(RowAt(s'.rows, x), s.pending, x);
    }
  }

  /** Persisting changes neither the side nor the id nor the price of a row. */
  predicate SameOrder(a: Order, b: Order) { b == a.(remaining := b.remaining, status := b.status) }

  lemma {:induction false} FillSame(row: Order, side: Side, trades: seq<Trade>, id: OrderId)
    ensures SameOrder(row, FillOne(row, side, trades, id))
    decreases trades
  {
    if trades != [] {
      var maker := if side.Buy? then trades[0].sellOrder else trades[0].buyOrder;
      FillSame(if maker == id then Filling(row, trades[0].quantity) else row, side, trades[1..], id);
    }
  }

  lemma {:induction false} DrainedSame(row: Order, jobs: seq<Job>, id: OrderId)
    ensures Drained(Some(row), jobs, id).Some? && SameOrder(row, Drained(Some(row), jobs, id).value)
    decreases jobs
  {
    if jobs != [] {
      FillSame(row, jobs[0].order.side, jobs[0].trades, id);
      DrainedSame(StepRow(Some(row), jobs[0], id).value, jobs[1..], id);
    }
  }

  /** A cancellation, however stale its row, takes the order out of the book and out of the rows. */
  lemma CancelShows(s: State, gone: OrderId, user: UserId, id: OrderId)
    requires Tracked(s) && Cancellable(s, gone, user)
    ensures var s' := CancelOrder(s, gone, user);
      OpenOnly(Settled(s', id)) == Resting(s', id) && Once(s', id)
  {
    var row, s' := s.rows[gone], CancelOrder(s, gone, user);
    assert OpenOnly(Settled(s, id)) == Resting(s, id) && Once(s, id);
    FindRemoved(s.books.Of(row.side), gone, id);
    FindRemoved(s.stopped, gone, id);
    if id == gone {
      DrainedFacts(RowAt(s'.rows, id), s.pending, id);
      DrainedSame(row, s.pending, id);
      FindFacts(s.books.bids, id);
      FindFacts(s.books.asks, id);
      ValidFacts(Buy, s.books.bids);
      ValidFacts(Sell, s.books.asks);
    }
  }

  lemma {:induction false} RemoveRest(book: seq<Order>, id: OrderId)
    requires AllRest(book)
    ensures AllRest(RemoveId(book, id))
  {
    if book != [] {
      RemoveRest(book[1..], id);
      assert MayRest(book[0].side, book[0]);
    }
  }

  lemma CancelKeepsTracked(s: State, id: OrderId, user: UserId)
    requires Tracked(s)
    ensures Tracked(CancelOrder(s, id, user))
  {
    if Cancellable(s, id, user) {
      var side, s' := s.rows[id].side, CancelOrder(s, id, user);
      RemoveFacts(side, s.books.Of(side), id);
      RemoveRest(s.stopped, id);
      forall other ensures OpenOnly(Settled(s', other)) == Resting(s', other) && Once(s', other) {
        CancelShows(s, id, user, other);
      }
    }
  }

  // ---- Runs in causal order ------------------------------------------------------------------------

  /** New orders come under unused ids.  A match may be persisted before earlier ones, but not before
      those of the orders that it filled.  Cancellations may come at any time. */
  ghost predicate InOrder(s: State, steps: seq<Step>)
    decreases steps
  {
    steps == [] ||
    (&& (match steps[0]
         case Placed(order) => NewOrder(order) && Settled(s, order.id).None?
         case Persisted(i) => i < |s.pending| && Harmless(s, i)
         case Withdrew(_, _) => true)
     && InOrder(Take(s, steps[0]), steps[1..]))
  }

  lemma StepKeepsTracked(s: State, steps: seq<Step>)
    requires Tracked(s) && Causal(s) && InOrder(s, steps) && steps != []
    ensures Tracked(Take(s, steps[0])) && Causal(Take(s, steps[0]))
  {
    match steps[0] {
      case Placed(order) => PlaceKeepsTracked(s, order); PlaceKeepsCausal(s, order);
      case Persisted(i) => PersistExactly(s, i); PersistKeepsCausal(s, i);
      case Withdrew(id, user) => CancelKeepsTracked(s, id, user); CancelKeepsCausal(s, id, user);
    }
  }

  lemma {:induction false} RunKeepsTracked(s: State, steps: seq<Step>)
    requires Tracked(s) && Causal(s) && InOrder(s, steps)
    ensures Tracked(TakeAll(s, steps)) && Causal(TakeAll(s, steps))
    decreases steps
  {
    if steps != [] {
      StepKeepsTracked(s, steps);
      RunKeepsTracked(Take(s, steps[0]), steps[1..]);
    }
  }

  // ---- Cold start ----------------------------------------------------------------------------------

  /** Saves the selected rows into the book, one by one. */
  function Seed(b: Books, selected: seq<Order>): Books
    decreases selected
  {
    if selected == [] then b
    else
      var row := selected[0];
      Seed(b.With(row.side, SortedBook.Upsert(b.Of(row.side), row)), selected[1..])
  }

  /** The open good-till-cancelled rows, in any order. */
  ghost predicate Selected(rows: Rows, selected: seq<Order>) {
    && Distinct(selected)
    && forall id :: Find(selected, id) ==
         if id in rows && rows[id].IsOpen() && rows[id].tif.GTC? then Some(rows[id]) else None
  }

  /** The entry of `selected` for `id`, if it belongs to that side. */
  function OnSide(found: Option<Order>, side: Side): Option<Order> {
    if found.Some? && found.value.side == side then found else None
  }

  lemma {:induction false} SeedFinds(b: Books, selected: seq<Order>, side: Side, id: OrderId)
    requires ValidSide(Buy, b.bids) && ValidSide(Sell, b.asks) && AllRest(selected) && Distinct(selected)
    ensures var after := Seed(b, selected);
      && ValidSide(Buy, after.bids) && ValidSide(Sell, after.asks)
      && Find(after.Of(side), id) == Or(OnSide(Find(selected, id), side), Find(b.Of(side), id))
    decreases selected
  {
    if selected != [] {
      var row, more := selected[0], selected[1..];
      assert MayRest(row.side, row) && AllRest(more);
      FindFacts(more, id);
      SeedOne(b, row, side, id);
      SeedFinds(b.With(row.side, SortedBook.Upsert(b.Of(row.side), row)), more, side, id);
    }
  }

  lemma SeedOne(b: Books, row: Order, side: Side, id: OrderId)
    requires ValidSide(Buy, b.bids) && ValidSide(Sell, b.asks) && MayRest(row.side, row)
    ensures var after := b.With(row.side, SortedBook.Upsert(b.Of(row.side), row));
      && ValidSide(Buy, after.bids) && ValidSide(Sell, after.asks)
      && Find(after.Of(side), id) == if id == row.id && side == row.side then Some(row) else Find(b.Of(side), id)
  {
    var book := b.Of(row.side);
    RemoveFacts(row.side, book, row.id);
    InsertFacts(row.side, RemoveId(book, row.id), row);
    FindUpserted(row.side, book, row, id);
  }

  /** A valid side is determined by what is found in it. */
  lemma {:induction false} SameFindsSameSide(side: Side, a: seq<Order>, b: seq<Order>)
    requires ValidSide(side, a) && ValidSide(side, b)
    requires forall id :: Find(a, id) == Find(b, id)
    ensures a == b
    decreases a
  {
    if a == [] {
      assert b != [] ==> Find(a, b[0].id) == Find(b, b[0].id);
    } else {
      assert Find(a, a[0].id) == Find(b, a[0].id);
      FindFacts(b, a[0].id);
      assert Find(a, b[0].id) == Find(b, b[0].id);
      FindFacts(a[1..], b[0].id);
      FindFacts(b[1..], a[0].id);
      assert a[0] == b[0];
      forall id ensures Find(a[1..], id) == Find(b[1..], id) {
        assert Find(a, id) == Find(b, id);
        FindFacts(a[1..], id);
        FindFacts(b[1..], id);
      }
      SameFindsSameSide(side, a[1..], b[1..]);
      assert a == [a[0]] + a[1..] && b == [b[0]] + b[1..];
    }
  }

  /** With nothing pending, the open rows are the resting orders, and all of them may rest. */
  lemma RowsRest(s: State, selected: seq<Order>, id: OrderId)
    requires Tracked(s) && s.pending == [] && Selected(s.rows, selected)
    ensures Find(selected, id) == Resting(s, id)
    ensures Find(selected, id).Some? ==> MayRest(Find(selected, id).value.side, Find(selected, id).value)
  {
    assert OpenOnly(Settled(s, id)) == Resting(s, id);
    FindFacts(s.books.bids, id);
    FindFacts(s.books.asks, id);
    FindFacts(s.stopped, id);
    ValidFacts(Buy, s.books.bids);
    ValidFacts(Sell, s.books.asks);
  }

  lemma SelectedRest(s: State, selected: seq<Order>)
    requires Tracked(s) && s.pending == [] && Selected(s.rows, selected)
    ensures AllRest(selected)
  {
    forall i | 0 <= i < |selected| ensures MayRest(selected[i].side, selected[i]) {
      FoundAt(selected, i);
      RowsRest(s, selected, selected[i].id);
    }
  }

  /** A seeded side has the resting orders of that side, and the stopped ones. */
  lemma SeededSide(s: State, selected: seq<Order>, side: Side, id: OrderId)
    requires Tracked(s) && s.pending == [] && Selected(s.rows, selected)
    ensures var seeded := Seed(Books([], []), selected);
      && ValidSide(Buy, seeded.bids) && ValidSide(Sell, seeded.asks)
      && Find(seeded.Of(side), id) == Or(Find(s.books.Of(side), id), OnSide(Find(s.stopped, id), side))
  {
    SelectedRest(s, selected);
    SeedFinds(Books([], []), selected, side, id);
    RowsRest(s, selected, id);
    FindFacts(s.books.bids, id);
    FindFacts(s.books.asks, id);
    ValidFacts(Buy, s.books.bids);
    ValidFacts(Sell, s.books.asks);
    assert Once(s, id);
  }

  /** A cold start on the rows rebuilds the live book exactly if self-trade prevention left no
      cancelled order with an open row: those come back. */
  lemma SeedRebuilds(s: State, selected: seq<Order>)
    requires Tracked(s) && s.pending == [] && Selected(s.rows, selected)
    ensures Seed(Books([], []), selected) == s.books <==> s.stopped == []
  {
    var seeded := Seed(Books([], []), selected);
    SeededSide(s, selected, Buy, 0);
    if s.stopped == [] {
      forall id ensures Find(seeded.bids, id) == Find(s.books.bids, id)
        ensures Find(seeded.asks, id) == Find(s.books.asks, id)
      {
        SeededSide(s, selected, Buy, id);
        SeededSide(s, selected, Sell, id);
      }
      SameFindsSameSide(Buy, seeded.bids, s.books.bids);
      SameFindsSameSide(Sell, seeded.asks, s.books.asks);
    } else {
      var o := s.stopped[0];
      SeededSide(s, selected, o.side, o.id);
      assert Once(s, o.id);
    }
  }

  /** Cold-start recovery over whole runs: whatever was placed and cancelled, if no match was persisted
      before those of the orders that it filled, rebuilding from the rows gives the live book if and only if no
      resting order was stopped by self-trade prevention and left standing in its row. */
  lemma ColdStart(t0: Table, steps: seq<Step>, selected: seq<Order>)
    requires InOrder(Fresh(t0), steps)
    requires var s := TakeAll(Fresh(t0), steps); s.pending == [] && Selected(s.rows, selected)
    ensures var s := TakeAll(Fresh(t0), steps);
      Seed(Books([], []), selected) == s.books <==> s.stopped == []
  {
    RunKeepsTracked(Fresh(t0), steps);
    SeedRebuilds(TakeAll(Fresh(t0), steps), selected);
  }

  /** No taker in the run asks for its own resting orders to be cancelled. */
  predicate Lenient(steps: seq<Step>) {
    forall i :: 0 <= i < |steps| && steps[i].Placed? ==>
      steps[i].order.stp.StpNone? || steps[i].order.stp.CancelTaker?
  }

  lemma {:induction false} NothingStopped(order: Order, book: seq<Order>)
    requires order.stp.StpNone? || order.stp.CancelTaker?
    ensures WalkStopped(order, book) == []
    decreases book
  {
    if !Ends(order, book) {
      NothingStopped(Next(order, book[0]), book[1..]);
    }
  }

  lemma {:induction false} LenientStopsNothing(s: State, steps: seq<Step>)
    requires s.stopped == [] && Lenient(steps)
    ensures TakeAll(s, steps).stopped == []
    decreases steps
  {
    if steps != [] {
      if steps[0].Placed? {
        var order := steps[0].order;
        NothingStopped(order, s.books.Of(order.side.Opposite()));
      }
      LenientStopsNothing(Take(s, steps[0]), steps[1..]);
    }
  }

  /** In particular, without self-trade prevention, or with CancelTaker only, a cold start always
      rebuilds the live book. */
  lemma ColdStartIsExact(t0: Table, steps: seq<Step>, selected: seq<Order>)
    requires InOrder(Fresh(t0), steps) && Lenient(steps)
    requires var s := TakeAll(Fresh(t0), steps); s.pending == [] && Selected(s.rows, selected)
    ensures Seed(Books([], []), selected) == TakeAll(Fresh(t0), steps).books
  {
    ColdStart(t0, steps, selected);
    LenientStopsNothing(Fresh(t0), steps);
  }
}
