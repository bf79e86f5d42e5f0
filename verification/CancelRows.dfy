/** What a cancellation does to rows and book, over the fields of the row alone: which orders it cancels,
    and that all of a user's open orders can be cancelled at once.
    (crates/api/src/worker.rs) */
module CancelRows {
  import opened Types
  import opened SortedBook
  import opened Ledger
  import opened Exchange
  import opened Recovery
  import opened RecoveryRuns

  /** The row is the user's, and New or PartiallyFilled. */
  predicate OpenRow(s: State, id: OrderId, user: UserId) {
    id in s.rows && s.rows[id].user == user && (s.rows[id].status == New || s.rows[id].status == PartiallyFilled)
  }

  function Row(t: Table, k: Key): Balance { if k in t then t[k] else Balance(0, 0) }

  /** A cancellation of an open row of the user's.  The row is Cancelled with nothing remaining, other rows
      stay; the refund, of price times what remained to a buyer, in USDT, or of what remained to a seller,
      moves from locked to available if there is a row for it; no other order leaves the book. */
  lemma CancelsOpenRow(s: State, id: OrderId, user: UserId)
    requires OpenRow(s, id, user)
    ensures var row, s' := s.rows[id], CancelOrder(s, id, user);
      var k := Key(user, if row.side.Buy? then USDT else row.pair.base);
      var price := if row.price.Some? then row.price.value else 0;
      var amount := if row.side.Buy? then price * row.remaining else row.remaining;
      && s'.rows == s.rows[id := row.(status := Cancelled, remaining := 0)]
      && s'.table == (if k in s.table
                      then s.table[k := Balance(s.table[k].available + amount, s.table[k].locked - amount)]
                      else s.table)
      && s'.pending == s.pending && s'.history == s.history
      && (forall other :: other != id ==>
            Find(s'.books.bids, other) == Find(s.books.bids, other)
            && Find(s'.books.asks, other) == Find(s.books.asks, other))
  {
    var row, s' := s.rows[id], CancelOrder(s, id, user);
    forall other | other != id
      ensures Find(s'.books.bids, other) == Find(s.books.bids, other)
      ensures Find(s'.books.asks, other) == Find(s.books.asks, other)
    {
      FindRemoved(s.books.Of(row.side), id, other);
    }
  }

  /** Then no order of that id is left on either side. */
  lemma CancelClears(s: State, id: OrderId, user: UserId)
    requires Tracked(s) && OpenRow(s, id, user)
    ensures var s' := CancelOrder(s, id, user); id !in Ids(s'.books.bids) && id !in Ids(s'.books.asks)
  {
    CancelKeepsTracked(s, id, user);
    ClosedIsOut(CancelOrder(s, id, user), id);
  }

  /** An order whose row is closed is not in the book. */
  lemma ClosedIsOut(s: State, id: OrderId)
    requires Tracked(s) && id in s.rows && !s.rows[id].IsOpen()
    ensures id !in Ids(s.books.bids) && id !in Ids(s.books.asks)
  {
    DrainedFacts(RowAt(s.rows, id), s.pending, id);
    assert OpenOnly(Settled(s, id)) == Resting(s, id) && Once(s, id);
    FindFacts(s.books.bids, id);
    FindFacts(s.books.asks, id);
  }

  /** Nothing else is ever cancelled: not another user's order, nor one that is neither New nor
      PartiallyFilled, nor one without a row. */
  lemma CancelsNothingElse(s: State, id: OrderId, user: UserId)
    ensures !OpenRow(s, id, user) <==> CancelOrder(s, id, user) == s
  {
    if OpenRow(s, id, user) {
      assert CancelOrder(s, id, user).rows[id].status == Cancelled;
    }
  }

  // ---- All orders of a user ----------------------------------------------------------------------------

  /** The rows after cancelling the listed orders, in any order. */
  lemma {:induction false} CancelAllRows(s: State, ids: seq<OrderId>, user: UserId)
    ensures var s' := CancelAll(s, ids, user);
      && s'.rows.Keys == s.rows.Keys && s'.pending == s.pending
      && forall id :: id in s.rows ==>
           s'.rows[id] == if id in ids && OpenRow(s, id, user)
                          then s.rows[id].(status := Cancelled, remaining := 0) else s.rows[id]
    decreases ids
  {
    if ids != [] {
      CancelAllRows(CancelOrder(s, ids[0], user), ids[1..], user);
    }
  }

  lemma {:induction false} CancelAllTracked(s: State, ids: seq<OrderId>, user: UserId)
    requires Tracked(s)
    ensures Tracked(CancelAll(s, ids, user))
    decreases ids
  {
    if ids != [] {
      CancelKeepsTracked(s, ids[0], user);
      CancelAllTracked(CancelOrder(s, ids[0], user), ids[1..], user);
    }
  }

  /** If the list has all open rows of the user, then none is left: every one is Cancelled, and its order
      out of the book; and no row of another user changes. */
  lemma CancelAllClears(s: State, ids: seq<OrderId>, user: UserId)
    requires Tracked(s) && forall id :: OpenRow(s, id, user) ==> id in ids
    ensures var s' := CancelAll(s, ids, user);
      && s'.rows.Keys == s.rows.Keys && (forall id :: !OpenRow(s', id, user))
      && (forall id :: OpenRow(s, id, user) ==>
            s'.rows[id].status == Cancelled && id !in Ids(s'.books.bids) && id !in Ids(s'.books.asks))
      && (forall id :: id in s.rows && s.rows[id].user != user ==> s'.rows[id] == s.rows[id])
  {
    var s' := CancelAll(s, ids, user);
    CancelAllRows(s, ids, user);
    CancelAllTracked(s, ids, user);
    forall id | OpenRow(s, id, user) ensures id !in Ids(s'.books.bids) && id !in Ids(s'.books.asks) {
      ClosedIsOut(s', id);
    }
  }
}
