/** One side of the book as a sequence of orders in sorted-set order: by score, ties by member.
    Saving and removing an order, and applying the updates that a match reports.
    (crates/shared/src/cache.rs) */
module SortedBook {
  import opened Types
  import opened Engine
  import opened MatchLaws
  import opened PriorityLaws
  import opened EquivalenceLaws

  /** Sorted sets order members by score and break ties by the member itself. */
  predicate Precedes(a: Order, b: Order) {
    a.Score() < b.Score() || (a.Score() == b.Score() && a.id < b.id)
  }

  predicate Leads(order: Order, book: seq<Order>) {
    forall i :: 0 <= i < |book| ==> Precedes(order, book[i])
  }

  function Ids(book: seq<Order>): set<OrderId> {
    if book == [] then {} else {book[0].id} + Ids(book[1..])
  }

  /** An order that may rest: an open limit order with something left. */
  predicate MayRest(side: Side, order: Order) {
    && order.side == side && order.orderType.Limit? && order.tif.GTC? && order.price.Some?
    && order.IsOpen() && order.remaining > 0
  }

  /** A side of the book: orders that may rest, with distinct ids, in sorted-set order. */
  predicate ValidSide(side: Side, book: seq<Order>) {
    book == [] ||
    (&& MayRest(side, book[0])
     && Leads(book[0], book[1..])
     && book[0].id !in Ids(book[1..])
     && ValidSide(side, book[1..]))
  }

  function Insert(book: seq<Order>, order: Order): seq<Order> {
    if book == [] || Precedes(order, book[0]) then [order] + book
    else [book[0]] + Insert(book[1..], order)
  }

  function RemoveId(book: seq<Order>, id: OrderId): seq<Order> {
    if book == [] then []
    else if book[0].id == id then RemoveId(book[1..], id)
    else [book[0]] + RemoveId(book[1..], id)
  }

  /** ZADD and HSET: an order that is already there moves to its new score. */
  function Upsert(book: seq<Order>, order: Order): seq<Order> {
    Insert(RemoveId(book, order.id), order)
  }

  /** The store's reading of reported updates: closed orders leave, others are upserted. */
  function ApplyUpdate(book: seq<Order>, u: Order): seq<Order> {
    if u.IsClosed() then RemoveId(book, u.id) else Upsert(book, u)
  }

  function ApplyUpdates(book: seq<Order>, updates: seq<Order>): seq<Order>
    decreases updates
  {
    if updates == [] then book else ApplyUpdates(ApplyUpdate(book, updates[0]), updates[1..])
  }

  // ---- Valid sides ------------------------------------------------------------------------------

  lemma {:induction false} ValidFacts(side: Side, book: seq<Order>)
    requires ValidSide(side, book)
    ensures AllOpen(book) && Positive(book) && SideSorted(side, book)
    ensures forall i :: 0 <= i < |book| ==> MayRest(side, book[i]) && book[i].id in Ids(book)
    ensures forall i, j :: 0 <= i < j < |book| ==> Precedes(book[i], book[j]) && book[i].id != book[j].id
  {
    if book != [] {
      var tail := book[1..];
      ValidFacts(side, tail);
      assert forall i :: 1 <= i < |book| ==> book[i] == tail[i - 1];
    }
  }

  /** A side in order: asks by price upwards, bids by price downwards, at one price by id. */
  lemma SideInOrder(side: Side, book: seq<Order>, i: nat, j: nat)
    requires ValidSide(side, book) && i < j < |book|
    ensures book[i].price.Some? && book[j].price.Some?
    ensures var near, far := book[i].price.value, book[j].price.value;
      (if side.Buy? then near > far else near < far) || (near == far && book[i].id < book[j].id)
  {
    ValidFacts(side, book);
  }

  lemma {:induction false} RemoveAbsent(book: seq<Order>, id: OrderId)
    requires id !in Ids(book)
    ensures RemoveId(book, id) == book
  {
    if book != [] {
      RemoveAbsent(book[1..], id);
    }
  }

  lemma {:induction false} RemoveFacts(side: Side, book: seq<Order>, id: OrderId)
    requires ValidSide(side, book)
    ensures ValidSide(side, RemoveId(book, id)) && Ids(RemoveId(book, id)) == Ids(book) - {id}
    ensures forall x :: Leads(x, book) ==> Leads(x, RemoveId(book, id))
  {
    if book != [] {
      var tail := book[1..];
      RemoveFacts(side, tail, id);
      if book[0].id == id {
        RemoveAbsent(tail, id);
      } else {
        var after := RemoveId(tail, id);
        assert ([book[0]] + after)[1..] == after;
      }
      forall x | Leads(x, book) ensures Leads(x, RemoveId(book, id)) {
        forall i | 0 <= i < |tail| ensures Precedes(x, tail[i]) {
          assert tail[i] == book[i + 1];
        }
      }
    }
  }

  lemma {:induction false} InsertFacts(side: Side, book: seq<Order>, order: Order)
    requires ValidSide(side, book) && MayRest(side, order) && order.id !in Ids(book)
    ensures ValidSide(side, Insert(book, order)) && Ids(Insert(book, order)) == Ids(book) + {order.id}
    ensures forall x :: Leads(x, book) && Precedes(x, order) ==> Leads(x, Insert(book, order))
  {
    if book == [] || Precedes(order, book[0]) {
      assert ([order] + book)[1..] == book;
    } else {
      var tail := book[1..];
      var after := Insert(tail, order);
      InsertFacts(side, tail, order);
      assert ([book[0]] + after)[1..] == after;
      forall x | Leads(x, book) && Precedes(x, order) ensures Leads(x, Insert(book, order)) {
        forall i | 0 <= i < |tail| ensures Precedes(x, tail[i]) {
          assert tail[i] == book[i + 1];
        }
      }
    }
  }

  /** Saving an order that is new to the side. */
  lemma UpsertFacts(side: Side, book: seq<Order>, order: Order)
    requires ValidSide(side, book) && MayRest(side, order) && order.id !in Ids(book)
    ensures Upsert(book, order) == Insert(book, order) && ValidSide(side, Upsert(book, order))
    ensures Ids(Upsert(book, order)) == Ids(book) + {order.id}
  {
    RemoveAbsent(book, order.id);
    InsertFacts(side, book, order);
  }

  // ---- The two reports of a match agree ---------------------------------------------------------

  /** Same id and score, and either closed or open with something left. */
  predicate Keeps(before: Order, after: Order) {
    && after == before.(remaining := after.remaining, status := after.status)
    && (after.IsClosed() || (after.IsOpen() && after.remaining > 0))
  }

  ghost predicate AllKept(before: seq<Order>, after: seq<Order>) {
    |before| == |after| && forall i :: 0 <= i < |before| ==> Keeps(before[i], after[i])
  }

  /** Updates of later orders leave the head of the book alone. */
  lemma {:induction false} UpdatesBehind(order: Order, book: seq<Order>, updates: seq<Order>)
    requires Leads(order, updates) && order.id !in Ids(updates)
    ensures ApplyUpdates([order] + book, updates) == [order] + ApplyUpdates(book, updates)
    decreases |updates|
  {
    if updates != [] {
      var u, more := updates[0], updates[1..];
      assert forall i :: 0 <= i < |more| ==> more[i] == updates[i + 1];
      assert ([order] + book)[1..] == book;
      var kept := RemoveId(book, u.id);
      assert RemoveId([order] + book, u.id) == [order] + kept;
      assert ([order] + kept)[1..] == kept;
      assert ApplyUpdate([order] + book, u) == [order] + ApplyUpdate(book, u);
      UpdatesBehind(order, ApplyUpdate(book, u), more);
    }
  }

  lemma {:induction false} KeptLeads(x: Order, x': Order, before: seq<Order>, after: seq<Order>)
    requires AllKept(before, after) && Leads(x, before) && x.id !in Ids(before)
    requires x'.id == x.id && x'.Score() == x.Score()
    ensures Leads(x', after) && x'.id !in Ids(after)
    ensures Leads(x', Live(after)) && x'.id !in Ids(Live(after))
  {
    if before != [] {
      assert AllKept(before[1..], after[1..]);
      assert Leads(x, before[1..]);
      KeptLeads(x, x', before[1..], after[1..]);
      assert after == [after[0]] + after[1..] && Precedes(x, before[0]) && Keeps(before[0], after[0]);
      assert ([after[0]] + Live(after[1..]))[1..] == Live(after[1..]);
    }
  }

  lemma {:induction false} LiveValid(side: Side, before: seq<Order>, after: seq<Order>)
    requires ValidSide(side, before) && AllKept(before, after)
    ensures ValidSide(side, Live(after)) && Ids(Live(after)) <= Ids(before)
  {
    if before != [] {
      assert AllKept(before[1..], after[1..]);
      LiveValid(side, before[1..], after[1..]);
      KeptLeads(before[0], after[0], before[1..], after[1..]);
      assert Keeps(before[0], after[0]);
      assert ([after[0]] + Live(after[1..]))[1..] == Live(after[1..]);
    }
  }

  /** The update of the head of a side, then updates of later orders. */
  lemma ApplyHead(b: Order, u: Order, tail: seq<Order>, more: seq<Order>)
    requires Keeps(b, u) && Leads(b, tail) && b.id !in Ids(tail)
    requires Leads(u, more) && u.id !in Ids(more)
    ensures ApplyUpdates([b] + tail, [u] + more)
         == if u.IsClosed() then ApplyUpdates(tail, more) else [u] + ApplyUpdates(tail, more)
  {
    var book := [b] + tail;
    assert book[1..] == tail && ([u] + more)[1..] == more;
    RemoveAbsent(tail, b.id);
    assert RemoveId(book, u.id) == tail;
    if !u.IsClosed() {
      assert tail == [] || Precedes(b, tail[0]);
      assert Upsert(book, u) == [u] + tail;
      UpdatesBehind(u, tail, more);
    }
  }

  lemma LeadsPrefix(x: Order, near: seq<Order>, far: seq<Order>)
    requires Leads(x, near + far) && x.id !in Ids(near + far)
    ensures Leads(x, near) && x.id !in Ids(near)
  {
    IdsConcat(near, far);
    forall i | 0 <= i < |near| ensures Precedes(x, near[i]) {
      assert near[i] == (near + far)[i];
    }
  }

  /** Applying the updates of a prefix of the book. */
  lemma {:induction false} ApplyPrefix(side: Side, before: seq<Order>, updates: seq<Order>, rest: seq<Order>)
    requires ValidSide(side, before + rest) && AllKept(before, updates)
    ensures ApplyUpdates(before + rest, updates) == Live(updates) + rest
    decreases |updates|
  {
    if updates == [] {
      assert before + rest == rest;
    } else {
      var b, u, later, more := before[0], updates[0], before[1..], updates[1..];
      assert before + rest == [b] + (later + rest) && updates == [u] + more;
      assert ([b] + (later + rest))[1..] == later + rest;
      assert Keeps(b, u) && AllKept(later, more);
      LeadsPrefix(b, later, rest);
      KeptLeads(b, u, later, more);
      ApplyHead(b, u, later + rest, more);
      ApplyPrefix(side, later, more, rest);
      LiveOnTop(u, more, rest);
    }
  }

  lemma LiveOnTop(u: Order, more: seq<Order>, rest: seq<Order>)
    ensures Live([u] + more) + rest == (if u.IsClosed() then [] else [u]) + (Live(more) + rest)
  {
    LiveHead(u, more);
  }

  lemma {:induction false} IdsConcat(a: seq<Order>, b: seq<Order>)
    ensures Ids(a + b) == Ids(a) + Ids(b)
  {
    if a == [] {
      assert a + b == b;
    } else {
      assert (a + b)[0] == a[0] && (a + b)[1..] == a[1..] + b;
      IdsConcat(a[1..], b);
    }
  }

  lemma {:induction false} LiveConcat(a: seq<Order>, b: seq<Order>)
    ensures Live(a + b) == Live(a) + Live(b)
  {
    if a == [] {
      assert a + b == b;
    } else {
      assert (a + b)[0] == a[0] && (a + b)[1..] == a[1..] + b;
      LiveConcat(a[1..], b);
    }
  }

  /** A match keeps every order of the book in its place, and closes it or leaves some of it. */
  lemma {:induction false} WalkKeeps(order: Order, book: seq<Order>)
    requires order.remaining >= 0 && AllOpen(book)
    ensures AllKept(book, Walk(order, book).book)
    decreases book
  {
    if !Ends(order, book) {
      WalkKeeps(Next(order, book[0]), book[1..]);
      var after := Walk(order, book).book;
      forall i | 0 <= i < |book| ensures Keeps(book[i], after[i]) {
        if i > 0 {
          assert book[i] == book[1..][i - 1] && after[i] == after[1..][i - 1];
        }
      }
    }
  }

  /** The two reports of a match agree: applying the reported updates to the stored side leaves
      exactly the open orders of the slice that was mutated in place. */
  lemma ReportsAgree(order: Order, book: seq<Order>)
    requires ValidSide(order.side.Opposite(), book) && order.remaining >= 0
    ensures var o := Match(order, book);
      && ApplyUpdates(book, o.result.bookUpdates) == Live(o.book)
      && ValidSide(order.side.Opposite(), Live(o.book))
      && Ids(Live(o.book)) <= Ids(book)
  {
    var side := order.side.Opposite();
    ValidFacts(side, book);
    UpdatesArePrefix(order, book);
    if FokRejects(order, book) {
      LiveOfOpen(book);
    } else {
      WalkKeeps(order, book);
      PrefixApplied(side, book, Match(order, book).book, Match(order, book).result.bookUpdates);
    }
  }

  lemma PrefixApplied(side: Side, book: seq<Order>, after: seq<Order>, updates: seq<Order>)
    requires ValidSide(side, book) && AllKept(book, after) && |updates| <= |book|
    requires updates == after[..|updates|] && after[|updates|..] == book[|updates|..]
    ensures ApplyUpdates(book, updates) == Live(after)
    ensures ValidSide(side, Live(after)) && Ids(Live(after)) <= Ids(book)
  {
    var n := |updates|;
    var rest := book[n..];
    assert book[..n] + rest == book;
    ApplyPrefix(side, book[..n], updates, rest);
    assert after == updates + rest;
    LiveConcat(updates, rest);
    ValidFacts(side, book);
    LiveOfOpen(rest);
    LiveValid(side, book, after);
  }
}
