/** The matching script that runs inside the cache: at most fifty candidates within the price bound,
    matched on the sorted set and the hashes in place.  When it does what the engine and the simple
    books do, and where it does not.
    (crates/shared/src/lua/match_order.lua, crates/shared/src/cache.rs) */
module MatchScript {
  import opened Types
  import opened Engine
  import opened MatchLaws
  import opened PriorityLaws
  import opened EquivalenceLaws
  import opened SortedBook
  import opened Books
  import opened SolvencyRuns
  import opened Recovery
  import opened Store

  const CANDIDATES := 50

  // ---- The script --------------------------------------------------------------------------------

  datatype Progress = Progress(store: Store, remaining: int, cancelled: bool, stop: bool, trades: seq<Trade>)

  predicate Crosses(order: Order, resting: Order) {
    || order.orderType.Market?
    || (if order.side.Buy? then order.PriceOrZero() >= resting.PriceOrZero()
        else order.PriceOrZero() <= resting.PriceOrZero())
  }

  /** A taker without a mode of its own is bound by that of the resting order. */
  function Combined(order: Order, resting: Order): StpMode {
    if order.stp.StpNone? then resting.stp else order.stp
  }

  function DropId(st: Store, side: Side, id: OrderId): Store {
    st.With(side, ZRem(st.Of(side), id)).(hashes := st.hashes - {id})
  }

  /** A fill, on the hash of the resting order. */
  function FillHash(p: Progress, order: Order, id: OrderId, resting: Order): Progress {
    var quantity := Min(p.remaining, resting.remaining);
    var left := resting.remaining - quantity;
    var price := if resting.orderType.Market? then order.PriceOrZero() else resting.PriceOrZero();
    var trade := TradeOf(order, resting.(price := Some(price)), quantity);
    p.(remaining := p.remaining - quantity,
       trades := p.trades + [trade],
       store := if left <= 0 then DropId(p.store, order.side.Opposite(), id)
                else p.store.(hashes := p.store.hashes[id := resting.(remaining := left, status := PartiallyFilled)]))
  }

  /** One candidate. */
  function Visit(p: Progress, order: Order, id: OrderId): Progress {
    var side := order.side.Opposite();
    if id !in p.store.hashes then p
    else
      var resting := p.store.hashes[id];
      if resting.status.Filled? || resting.status.Cancelled? || resting.status.Rejected? || resting.remaining <= 0
      then p
      else if !Crosses(order, resting) then p.(stop := true)
      else
        match if order.user == resting.user then Combined(order, resting) else StpNone
        case CancelMaker => p.(store := DropId(p.store, side, id))
        case CancelTaker => p.(remaining := 0, cancelled := true, stop := true)
        case CancelBoth => p.(remaining := 0, cancelled := true, stop := true, store := DropId(p.store, side, id))
        case StpNone => FillHash(p, order, id, resting)
  }

  function VisitAll(p: Progress, order: Order, ids: seq<OrderId>): Progress
    decreases ids
  {
    if ids == [] || p.remaining <= 0 || p.stop then p else VisitAll(Visit(p, order, ids[0]), order, ids[1..])
  }

  function StatusAfter(order: Order, p: Progress): OrderStatus {
    var status := if p.cancelled then Cancelled
                  else if p.remaining <= 0 then Filled
                  else if p.remaining < order.quantity then PartiallyFilled
                  else New;
    if order.tif.IOC? && p.remaining > 0 then Cancelled else status
  }

  /** What is left of a good-till-cancelled order rests, whatever its type. */
  function RestAfter(order: Order, p: Progress): Option<Order> {
    var status := StatusAfter(order, p);
    if order.tif.GTC? && p.remaining > 0 && !status.Cancelled?
    then Some(order.(remaining := p.remaining, status := status)) else None
  }

  function SaveResting(st: Store, resting: Option<Order>): Store {
    if resting.Some? then Save(st, resting.value) else st
  }

  /** The version counter is created if it does not exist. */
  function NextVersion(version: Option<nat>): nat { if version.Some? then version.value + 1 else 1 }

  function Candidates(st: Store, order: Order): seq<OrderId> {
    var ids := Range(st.Of(order.side.Opposite()), Bound(order));
    if |ids| <= CANDIDATES then ids else ids[..CANDIDATES]
  }

  datatype Returned = Returned(remaining: int, status: OrderStatus, trades: seq<Trade>)

  function Run(st: Store, order: Order): (Store, Returned) {
    var p := VisitAll(Progress(st, order.quantity, false, false, []), order, Candidates(st, order));
    (SaveResting(p.store, RestAfter(order, p)).(version := Some(NextVersion(p.store.version))),
     Returned(p.remaining, StatusAfter(order, p), p.trades))
  }

  method DropFrom(cache: Cache, side: Side, id: OrderId)
    modifies cache
    ensures cache.Now() == DropId(old(cache.Now()), side, id)
  {
    cache.SetOf(side, ZRem(cache.Now().Of(side), id));
    cache.hashes := cache.hashes - {id};
  }

  /** The body of the loop: one candidate, on the sets and hashes in place. */
  method VisitCandidate(cache: Cache, order: Order, id: OrderId, before: Progress) returns (p: Progress)
    requires before.store == cache.Now()
    modifies cache
    ensures p == Visit(before, order, id) && p.store == cache.Now()
  {
    var side := order.side.Opposite();
    p := before;
    if id !in cache.hashes {
      return;
    }
    var resting := cache.hashes[id];
    if resting.status.Filled? || resting.status.Cancelled? || resting.status.Rejected? || resting.remaining <= 0 {
      return;
    }
    if !Crosses(order, resting) {
      p := p.(stop := true);
      return;
    }
    var combined := if order.user == resting.user then Combined(order, resting) else StpNone;
    if combined.CancelMaker? {
      DropFrom(cache, side, id);
    } else if combined.CancelTaker? {
      p := p.(remaining := 0, cancelled := true, stop := true);
    } else if combined.CancelBoth? {
      DropFrom(cache, side, id);
      p := p.(remaining := 0, cancelled := true, stop := true);
    } else {
      var quantity := if resting.remaining < p.remaining then resting.remaining else p.remaining;
      var price := if resting.orderType.Market? then order.PriceOrZero() else resting.PriceOrZero();
      p := p.(remaining := p.remaining - quantity,
              trades := p.trades + [TradeOf(order, resting.(price := Some(price)), quantity)]);
      if resting.remaining - quantity <= 0 {
        DropFrom(cache, side, id);
      } else {
        cache.hashes := cache.hashes[id := resting.(remaining := resting.remaining - quantity,
            status := PartiallyFilled)];
      }
    }
    p := p.(store := cache.Now());
  }

  /** The script on the cache. */
  method MatchOrderLua(cache: Cache, order: Order) returns (r: Returned)
    modifies cache
    ensures (cache.Now(), r) == Run(old(cache.Now()), order)
  {
    var ids := Candidates(cache.Now(), order);
    var p := Progress(cache.Now(), order.quantity, false, false, []);
    ghost var last := VisitAll(p, order, ids);
    var i := 0;
    assert ids[0..] == ids;
    while i < |ids| && p.remaining > 0 && !p.stop
      invariant 0 <= i <= |ids|
      invariant cache.Now() == p.store
      invariant VisitAll(p, order, ids[i..]) == last
    {
      assert ids[i..][0] == ids[i] && ids[i..][1..] == ids[i + 1..];
      p := VisitCandidate(cache, order, ids[i], p);
      i := i + 1;
    }
    assert p == last;
    r := FinishOrder(cache, order, p);
  }

  /** The time-in-force rules, and the version. */
  method FinishOrder(cache: Cache, order: Order, p: Progress) returns (r: Returned)
    requires p.store == cache.Now()
    modifies cache
    ensures r == Returned(p.remaining, StatusAfter(order, p), p.trades)
    ensures cache.Now() == SaveResting(p.store, RestAfter(order, p)).(version := Some(NextVersion(p.store.version)))
  {
    var status := StatusAfter(order, p);
    if order.tif.GTC? && p.remaining > 0 && !status.Cancelled? {
      cache.SaveOrderToBook(order.(remaining := p.remaining, status := status));
    }
    cache.version := Some(NextVersion(cache.version));
    r := Returned(p.remaining, status, p.trades);
  }

  // ---- The candidates are enough -------------------------------------------------------------------

  /** How many resting orders the engine's walk acts on. */
  function Visits(order: Order, book: seq<Order>): (n: nat)
    ensures n <= |book|
    decreases book
  {
    if Stops(order, book) then 0
    else if Ends(order, book) then 1
    else 1 + Visits(Next(order, book[0]), book[1..])
  }

  lemma SameFront(order: Order, resting: Order, a: Outcome, b: Outcome)
    ensures Front(order, resting, a).result == Front(order, resting, b).result <==> a.result == b.result
  {
    var x, y := Front(order, resting, a).result, Front(order, resting, b).result;
    assert x.bookUpdates[1..] == a.result.bookUpdates && y.bookUpdates[1..] == b.result.bookUpdates;
    if SelfTrade(order, resting) {
      assert x.stpCancelled[1..] == a.result.stpCancelled && y.stpCancelled[1..] == b.result.stpCancelled;
    } else {
      assert x.trades[1..] == a.result.trades && y.trades[1..] == b.result.trades;
    }
  }

  /** Matching only the first `n` orders gives the engine's result exactly if the engine acts on no
      more than `n`. */
  lemma {:induction false} LimitExactly(order: Order, book: seq<Order>, n: nat)
    requires n <= |book|
    ensures Walk(order, book[..n]).result == Walk(order, book).result <==> Visits(order, book) <= n
    decreases book
  {
    if n > 0 {
      var near := book[..n];
      assert near[0] == book[0] && near[1..] == book[1..][..n - 1];
      if !Ends(order, book) {
        LimitExactly(Next(order, book[0]), book[1..], n - 1);
        SameFront(order, book[0], Walk(Next(order, book[0]), near[1..]), Walk(Next(order, book[0]), book[1..]));
      }
    }
  }

  lemma {:induction false} VisitsOfPrefix(order: Order, book: seq<Order>, n: nat)
    requires n <= |book|
    ensures Visits(order, book[..n]) == Min(n, Visits(order, book))
    decreases book
  {
    if n > 0 && !Ends(order, book) {
      var near := book[..n];
      assert near[0] == book[0] && near[1..] == book[1..][..n - 1];
      VisitsOfPrefix(Next(order, book[0]), book[1..], n - 1);
    }
  }

  // ---- The loop against the walk ---------------------------------------------------------------------

  /** What the script does to the store for an update that the engine reports. */
  function ScriptUpdate(st: Store, u: Order): Store {
    if u.IsClosed() then Remove(st, u) else st.(hashes := st.hashes[u.id := u])
  }

  function ScriptUpdates(st: Store, updates: seq<Order>): Store
    decreases updates
  {
    if updates == [] then st else ScriptUpdates(ScriptUpdate(st, updates[0]), updates[1..])
  }

  /** A taker without a mode would inherit that of its own resting order. */
  predicate Inherits(order: Order, resting: Order) {
    order.stp.StpNone? && resting.user == order.user && !resting.stp.StpNone?
  }

  /** None of the orders that the engine acts on has a mode to inherit. */
  ghost predicate NoneInherited(order: Order, book: seq<Order>) {
    forall i :: 0 <= i < Visits(order, book) ==> !Inherits(order, book[i])
  }

  ghost predicate InHashes(hashes: Hashes, book: seq<Order>) {
    forall i :: 0 <= i < |book| ==> RowAt(hashes, book[i].id) == Some(book[i])
  }

  /** The script and the walk have come to the same. */
  ghost predicate SameEffect(p: Progress, q: Progress, o: Outcome) {
    && q.trades == p.trades + o.result.trades
    && q.cancelled == o.result.incoming.status.Cancelled?
    && q.remaining == (if q.cancelled then 0 else o.result.incoming.remaining)
    && q.store == ScriptUpdates(p.store, o.result.bookUpdates)
  }

  /** One candidate against one step of the walk. */
  lemma VisitIsStep(p: Progress, order: Order, head: Order)
    requires order.remaining == p.remaining > 0 && RowAt(p.store.hashes, head.id) == Some(head)
    requires MayRest(order.side.Opposite(), head) && !Inherits(order, head)
    requires order.orderType.Limit? <==> order.price.Some?
    requires !Ends(order, [head])
    ensures var q, next := Visit(p, order, head.id), Next(order, head);
      && q.remaining == next.remaining && q.cancelled == p.cancelled && q.stop == p.stop
      && q.store == ScriptUpdate(p.store, Visited(order, head))
      && q.trades == p.trades + if SelfTrade(order, head) then [] else [TradeOf(order, head, Fill(order, head))]
  {
    assert [head][0] == head;
    var side := order.side.Opposite();
    assert Crosses(order, head);
    assert head.(price := Some(head.PriceOrZero())) == head;
    assert Remove(p.store, Visited(order, head)) == DropId(p.store, side, head.id);
  }

  lemma InheritedInTurn(order: Order, book: seq<Order>)
    requires !Ends(order, book)
    ensures NoneInherited(order, book) <==> !Inherits(order, book[0]) && NoneInherited(Next(order, book[0]), book[1..])
  {
    var next, tail := Next(order, book[0]), book[1..];
    assert Visits(order, book) == 1 + Visits(next, tail);
    if NoneInherited(order, book) {
      forall i | 0 <= i < Visits(next, tail) ensures !Inherits(next, tail[i]) {
        assert !Inherits(order, book[i + 1]);
      }
    }
    if !Inherits(order, book[0]) && NoneInherited(next, tail) {
      forall i | 0 <= i < Visits(order, book) ensures !Inherits(order, book[i]) {
        assert i > 0 ==> !Inherits(next, tail[i - 1]);
      }
    }
  }

  lemma {:induction false} VisitsAreWalk(p: Progress, order: Order, book: seq<Order>)
    requires order.remaining == p.remaining >= 0 && !p.stop && !p.cancelled && !order.status.Cancelled?
    requires ValidSide(order.side.Opposite(), book) && InHashes(p.store.hashes, book) && NoneInherited(order, book)
    requires order.orderType.Limit? <==> order.price.Some?
    ensures SameEffect(p, VisitAll(p, order, IdList(book)), Walk(order, book))
    decreases book
  {
    if book == [] || order.remaining == 0 {
      assert p.trades + [] == p.trades;
    } else {
      var head, tail := book[0], book[1..];
      var ids := IdList(book);
      assert ids[0] == head.id && ids[1..] == IdList(tail);
      assert RowAt(p.store.hashes, head.id) == Some(head);
      assert [head][0] == book[0];
      if Ends(order, book) {
        assert !Stops(order, book) ==> Visits(order, book) == 1;
        LastVisit(p, order, book);
      } else {
        var q, next := Visit(p, order, head.id), Next(order, head);
        VisitIsStep(p, order, head);
        RestInHashes(p.store, order, book);
        InheritedInTurn(order, book);
        VisitsAreWalk(q, next, tail);
        VisitAllIgnoresRemaining(q, order, next, ids[1..]);
        FrontEffect(p, q, VisitAll(q, order, ids[1..]), order, head, Walk(next, tail));
      }
    }
  }

  /** The script reads the taker's quantity from its own counter. */
  lemma {:induction false} VisitAllIgnoresRemaining(p: Progress, order: Order, order': Order, ids: seq<OrderId>)
    requires order' == order.(remaining := order'.remaining, status := order'.status)
    ensures VisitAll(p, order', ids) == VisitAll(p, order, ids)
    decreases ids
  {
    if ids != [] && p.remaining > 0 && !p.stop {
      assert Visit(p, order', ids[0]) == Visit(p, order, ids[0]);
      VisitAllIgnoresRemaining(Visit(p, order, ids[0]), order, order', ids[1..]);
    }
  }

  lemma FrontEffect(p: Progress, q: Progress, last: Progress, order: Order, head: Order, rest: Outcome)
    requires SameEffect(q, last, rest)
    requires q.store == ScriptUpdate(p.store, Visited(order, head))
    requires q.trades == p.trades + if SelfTrade(order, head) then [] else [TradeOf(order, head, Fill(order, head))]
    ensures SameEffect(p, last, Front(order, head, rest))
  {
    var o := Front(order, head, rest);
    assert o.result.bookUpdates[1..] == rest.result.bookUpdates;
    if !SelfTrade(order, head) {
      var trade := TradeOf(order, head, Fill(order, head));
      assert p.trades + [trade] + rest.result.trades == p.trades + ([trade] + rest.result.trades);
    }
  }

  /** The candidate at which the walk ends. */
  lemma LastVisit(p: Progress, order: Order, book: seq<Order>)
    requires order.remaining == p.remaining > 0 && !p.stop && !p.cancelled && !order.status.Cancelled?
    requires book != [] && Ends(order, book) && MayRest(order.side.Opposite(), book[0])
    requires RowAt(p.store.hashes, book[0].id) == Some(book[0]) && (Stops(order, book) || !Inherits(order, book[0]))
    requires order.orderType.Limit? <==> order.price.Some?
    ensures SameEffect(p, VisitAll(p, order, IdList(book)), Walk(order, book))
  {
    var head := book[0];
    var ids := IdList(book);
    assert ids[0] == head.id && [head][0] == head;
    var q := Visit(p, order, head.id);
    assert VisitAll(p, order, ids) == VisitAll(q, order, ids[1..]) == q;
    assert p.trades + [] == p.trades;
    assert [Cancel(head)][1..] == [];
    assert Remove(p.store, Cancel(head)) == DropId(p.store, order.side.Opposite(), head.id);
  }

  lemma RestInHashes(st: Store, order: Order, book: seq<Order>)
    requires book != [] && ValidSide(order.side.Opposite(), book) && InHashes(st.hashes, book)
    ensures InHashes(ScriptUpdate(st, Visited(order, book[0])).hashes, book[1..])
  {
    ValidFacts(order.side.Opposite(), book);
    var tail := book[1..];
    forall i | 0 <= i < |tail|
      ensures RowAt(ScriptUpdate(st, Visited(order, book[0])).hashes, tail[i].id) == Some(tail[i])
    {
      assert tail[i] == book[i + 1] && book[0].id != book[i + 1].id;
    }
  }

  // ---- The stores agree ------------------------------------------------------------------------------

  /** The set after the closed orders of the updates are gone. */
  function WithoutClosed(z: seq<Entry>, updates: seq<Order>): seq<Entry>
    decreases updates
  {
    if updates == [] then z
    else WithoutClosed(if updates[0].IsClosed() then ZRem(z, updates[0].id) else z, updates[1..])
  }

  lemma {:induction false} ScriptSets(st: Store, side: Side, updates: seq<Order>)
    requires forall i :: 0 <= i < |updates| ==> updates[i].side == side
    ensures var after := ScriptUpdates(st, updates);
      && after.Of(side) == WithoutClosed(st.Of(side), updates)
      && after.Of(side.Opposite()) == st.Of(side.Opposite()) && after.version == st.version
    decreases updates
  {
    if updates != [] {
      ScriptSets(ScriptUpdate(st, updates[0]), side, updates[1..]);
    }
  }

  lemma {:induction false} ScriptHash(st: Store, updates: seq<Order>, id: OrderId)
    requires Distinct(updates)
    ensures var u := Find(updates, id);
      RowAt(ScriptUpdates(st, updates).hashes, id)
      == if u.Some? then (if u.value.IsClosed() then None else u) else RowAt(st.hashes, id)
    decreases updates
  {
    if updates != [] {
      ScriptHash(ScriptUpdate(st, updates[0]), updates[1..], id);
      FindFacts(updates[1..], id);
    }
  }

  lemma {:induction false} RemAbsent(z: seq<Entry>, book: seq<Order>, id: OrderId)
    requires z == Entries(book) && id !in Ids(book)
    ensures ZRem(z, id) == z
    decreases book
  {
    if book != [] {
      assert z[1..] == Entries(book[1..]);
      RemAbsent(z[1..], book[1..], id);
    }
  }

  lemma {:induction false} ClosedBehind(e: Entry, z: seq<Entry>, updates: seq<Order>)
    requires e.id !in Ids(updates)
    ensures WithoutClosed([e] + z, updates) == [e] + WithoutClosed(z, updates)
    decreases |updates|
  {
    if updates != [] {
      var u := updates[0];
      assert ([e] + z)[1..] == z;
      ClosedBehind(e, if u.IsClosed() then ZRem(z, u.id) else z, updates[1..]);
    }
  }

  /** The head leaves the set if it closed, and the later updates go on behind it. */
  lemma ClosedAtHead(b: Order, tail: seq<Order>, u: Order, more: seq<Order>)
    requires u.id == b.id && b.id !in Ids(tail) && b.id !in Ids(more)
    ensures WithoutClosed(Entries([b] + tail), [u] + more) ==
      (if u.IsClosed() then [] else [EntryOf(b)]) + WithoutClosed(Entries(tail), more)
  {
    assert ([u] + more)[1..] == more && ([b] + tail)[1..] == tail;
    assert Entries([b] + tail) == [EntryOf(b)] + Entries(tail);
    assert ([EntryOf(b)] + Entries(tail))[1..] == Entries(tail);
    RemAbsent(Entries(tail), tail, b.id);
    ClosedBehind(EntryOf(b), Entries(tail), more);
  }

  lemma LiveAtHead(u: Order, more: seq<Order>, rest: seq<Order>)
    ensures Entries(Live([u] + more) + rest) == (if u.IsClosed() then [] else [EntryOf(u)]) + Entries(Live(more) + rest)
  {
    LiveHead(u, more);
    if u.IsClosed() {
      assert Live([u] + more) + rest == Live(more) + rest;
    } else {
      assert Live([u] + more) + rest == [u] + (Live(more) + rest);
      EntriesHead(u, Live(more) + rest);
    }
  }

  lemma EntriesHead(head: Order, tail: seq<Order>)
    ensures Entries([head] + tail) == [EntryOf(head)] + Entries(tail)
  {
    assert ([head] + tail)[1..] == tail;
  }

  /** Removing the closed orders from the set leaves the entries of the open ones. */
  lemma {:induction false} WithoutClosedIsLive(side: Side, before: seq<Order>, updates: seq<Order>, rest: seq<Order>)
    requires ValidSide(side, before + rest) && AllKept(before, updates)
    ensures WithoutClosed(Entries(before + rest), updates) == Entries(Live(updates) + rest)
    decreases |updates|
  {
    if updates == [] {
      assert before + rest == rest && Live(updates) + rest == rest;
    } else {
      var b, u, more, tail := before[0], updates[0], updates[1..], before[1..] + rest;
      assert Keeps(b, u) && AllKept(before[1..], more);
      assert (before + rest)[0] == b && (before + rest)[1..] == tail;
      IdsConcat(before[1..], rest);
      KeptIds(before[1..], more);
      assert updates == [u] + more && before + rest == [b] + tail;
      ClosedAtHead(b, tail, u, more);
      LiveAtHead(u, more, rest);
      assert EntryOf(u) == EntryOf(b);
      WithoutClosedIsLive(side, before[1..], more, rest);
    }
  }

  lemma JoinedWithoutClosed(side: Side, near: seq<Order>, rest: seq<Order>, updates: seq<Order>)
    requires ValidSide(side, near + rest) && AllKept(near, updates) && AllOpen(rest)
    ensures WithoutClosed(Entries(near + rest), updates) == Entries(Live(updates + rest))
  {
    WithoutClosedIsLive(side, near, updates, rest);
    LiveConcat(updates, rest);
    LiveOfOpen(rest);
  }

  lemma RestIsOpen(side: Side, book: seq<Order>, n: nat)
    requires ValidSide(side, book) && n <= |book|
    ensures AllOpen(book[n..])
  {
    ValidFacts(side, book);
    assert forall i :: 0 <= i < |book[n..]| ==> book[n..][i] == book[n + i];
  }

  lemma KeptPrefix(book: seq<Order>, after: seq<Order>, n: nat)
    requires AllKept(book, after) && n <= |book|
    ensures AllKept(book[..n], after[..n])
  {
  }

  /** Updates that are a prefix of the side as it is afterwards. */
  lemma PrefixWithoutClosed(side: Side, book: seq<Order>, after: seq<Order>, updates: seq<Order>)
    requires ValidSide(side, book) && AllKept(book, after) && |updates| <= |book|
    requires updates == after[..|updates|] && after[|updates|..] == book[|updates|..]
    ensures WithoutClosed(Entries(book), updates) == Entries(Live(after))
  {
    var near, rest := book[..|updates|], book[|updates|..];
    RestIsOpen(side, book, |updates|);
    KeptPrefix(book, after, |updates|);
    assert near + rest == book;
    assert updates + rest == after;
    JoinedWithoutClosed(side, near, rest, updates);
  }

  /** The set of the opposite side after the script is that of the simple side. */
  lemma ScriptSideIsLive(st: Store, order: Order, book: seq<Order>)
    requires ValidSide(order.side.Opposite(), book) && order.remaining >= 0 && !order.tif.FOK?
    requires st.Of(order.side.Opposite()) == Entries(book)
    ensures var o := Match(order, book);
      ScriptUpdates(st, o.result.bookUpdates).Of(order.side.Opposite()) == Entries(Live(o.book))
  {
    var side, o := order.side.Opposite(), Match(order, book);
    ValidFacts(side, book);
    UpdateFacts(order, book);
    UpdatesArePrefix(order, book);
    WalkKeeps(order, book);
    ScriptSets(st, side, o.result.bookUpdates);
    PrefixWithoutClosed(side, book, o.book, o.result.bookUpdates);
  }

  /** The script leaves the sets and hashes that one cycle of load, match and swap would leave. */
  lemma ScriptRepresents(st: Store, b: Books, order: Order, resting: Option<Order>)
    requires Represents(st, b) && ValidBooks(b) && NewOrder(order) && order.id !in b.AllIds() && !order.tif.FOK?
    requires resting == RestingOf(Match(order, b.Of(order.side.Opposite())).result)
    ensures var updates := Match(order, b.Of(order.side.Opposite())).result.bookUpdates;
      Represents(SaveResting(ScriptUpdates(st, updates), resting), Submit(b, order))
  {
    var side := order.side.Opposite();
    var book, own := b.Of(side), b.Of(order.side);
    var updates := Match(order, book).result.bookUpdates;
    var after := SaveResting(ScriptUpdates(st, updates), resting);
    ValidFacts(side, book);
    UpdateFacts(order, book);
    ReportsAgree(order, book);
    ScriptSideIsLive(st, order, book);
    ScriptSets(st, side, updates);
    MatchKeepsOrder(order, book);
    if resting.Some? {
      EntriesUpserted(own, resting.value);
    }
    forall id
      ensures Find(Submit(b, order).bids, id).Some? ==> RowAt(after.hashes, id) == Find(Submit(b, order).bids, id)
      ensures Find(Submit(b, order).asks, id).Some? ==> RowAt(after.hashes, id) == Find(Submit(b, order).asks, id)
    {
      ScriptHashes(st, b, order, resting, id);
    }
  }

  /** The hash of an id after the script is the one after both phases of a commit. */
  lemma ScriptHashIsCommitHash(st: Store, updates: seq<Order>, resting: Option<Order>, id: OrderId)
    requires Distinct(updates) && (resting.Some? ==> resting.value.id !in Ids(updates))
    ensures RowAt(SaveResting(ScriptUpdates(st, updates), resting).hashes, id)
         == RowAt(MutateAll(st.(hashes := PreWrite(st.hashes, Upserts(updates, resting))), updates).hashes, id)
    ensures Find(Upserts(updates, resting), id).None? ==>
      RowAt(PreWrite(st.hashes, Upserts(updates, resting)), id) == RowAt(st.hashes, id)
  {
    ScriptHash(st, updates, id);
    UpsertsFind(updates, resting, id);
    PreWritten(st.hashes, Upserts(updates, resting), id);
    MutatedHash(st.(hashes := PreWrite(st.hashes, Upserts(updates, resting))), updates, id);
    FindFacts(updates, id);
  }

  lemma ScriptHashes(st: Store, b: Books, order: Order, resting: Option<Order>, id: OrderId)
    requires Represents(st, b) && ValidBooks(b) && NewOrder(order) && order.id !in b.AllIds()
    requires resting == RestingOf(Match(order, b.Of(order.side.Opposite())).result)
    ensures var updates := Match(order, b.Of(order.side.Opposite())).result.bookUpdates;
      var after := SaveResting(ScriptUpdates(st, updates), resting).hashes;
      && (Find(Submit(b, order).bids, id).Some? ==> RowAt(after, id) == Find(Submit(b, order).bids, id))
      && (Find(Submit(b, order).asks, id).Some? ==> RowAt(after, id) == Find(Submit(b, order).asks, id))
  {
    var book := b.Of(order.side.Opposite());
    var updates := Match(order, book).result.bookUpdates;
    ValidFacts(order.side.Opposite(), book);
    UpdateFacts(order, book);
    MatchKeepsOrder(order, book);
    ScriptHashIsCommitHash(st, updates, resting, id);
    PreWritePrepares(st.hashes, updates, resting);
    CommitHash(st.(hashes := PreWrite(st.hashes, Upserts(updates, resting))), b, order, id);
  }

  // ---- Refinement --------------------------------------------------------------------------------------

  /** How many of the side's orders the script looks at, at most. */
  function Loaded(order: Order, book: seq<Order>): (n: nat)
    ensures n <= |book|
  {
    Min(Near(book, Bound(order)), CANDIDATES)
  }

  lemma CandidatesAreFirst(st: Store, order: Order, book: seq<Order>)
    requires ValidSide(order.side.Opposite(), book) && st.Of(order.side.Opposite()) == Entries(book)
    ensures Candidates(st, order) == IdList(book[..Loaded(order, book)])
  {
    var side, bound := order.side.Opposite(), Bound(order);
    var n, m := Near(book, bound), Loaded(order, book);
    IdsInRange(side, book, bound);
    IdListPrefix(book[..n], m);
    assert book[..n][..m] == book[..m];
  }

  /** Beyond the price bound the engine acts on nothing. */
  lemma {:induction false} VisitsWithinBound(order: Order, book: seq<Order>)
    requires ValidSide(order.side.Opposite(), book)
    requires order.orderType.Limit? <==> order.price.Some?
    ensures Visits(order, book) <= Near(book, Bound(order))
    decreases book
  {
    if !Ends(order, book) {
      VisitsWithinBound(Next(order, book[0]), book[1..]);
    }
  }

  lemma {:induction false} ValidPrefix(side: Side, book: seq<Order>, n: nat)
    requires ValidSide(side, book) && n <= |book|
    ensures ValidSide(side, book[..n])
  {
    if n > 0 {
      ValidPrefix(side, book[1..], n - 1);
      PrefixIds(book[1..], n - 1);
      assert book[..n][0] == book[0] && book[..n][1..] == book[1..][..n - 1];
    }
  }

  /** The script's loop comes to what the engine's walk over the whole side comes to, if the walk
      acts on no more than fifty orders and no mode is inherited. */
  lemma LoopIsWalk(st: Store, order: Order, book: seq<Order>)
    requires ValidSide(order.side.Opposite(), book) && st.Of(order.side.Opposite()) == Entries(book)
    requires Hashed(st.hashes, book) && NewOrder(order) && NoneInherited(order, book)
    requires Visits(order, book) <= 50
    ensures SameEffect(Progress(st, order.quantity, false, false, []),
                       VisitAll(Progress(st, order.quantity, false, false, []), order, Candidates(st, order)),
                       Walk(order, book))
  {
    var side := order.side.Opposite();
    var n := Loaded(order, book);
    CandidatesAreFirst(st, order, book);
    HashedAt(side, book, st.hashes);
    ValidPrefix(side, book, n);
    VisitsWithinBound(order, book);
    LimitExactly(order, book, n);
    VisitsOfPrefix(order, book, n);
    VisitsAreWalk(Progress(st, order.quantity, false, false, []), order, book[..n]);
  }

  /** Self-trade prevention stops the taker before it is filled. */
  predicate StoppedShort(order: Order, book: seq<Order>) {
    !order.stp.CancelMaker? && MeetsOwn(order, book) && order.remaining > Reachable(order, book)
  }

  /** The script refines the engine on the simple books.  For an order that is not fill-or-kill, a
      market order marked immediate-or-cancel, with no inherited mode, and as long as the engine acts
      on at most fifty resting orders: the cache afterwards represents the books after the
      submission, with the same trades and status; and the same remaining quantity unless
      self-trade prevention stops the taker short, when the script forgets it. */
  lemma ScriptRefinesSubmit(st: Store, b: Books, order: Order)
    requires Represents(st, b) && ValidBooks(b) && NewOrder(order) && order.id !in b.AllIds()
    requires !order.tif.FOK? && (order.orderType.Market? ==> order.tif.IOC?)
    requires NoneInherited(order, b.Of(order.side.Opposite()))
    requires Visits(order, b.Of(order.side.Opposite())) <= 50
    ensures var (after, r) := Run(st, order);
      var book := b.Of(order.side.Opposite());
      var result := Match(order, book).result;
      && Represents(after, Submit(b, order))
      && r.trades == result.trades && r.status == result.incoming.status
      && r.remaining == (if StoppedShort(order, book) then 0 else result.incoming.remaining)
      && (StoppedShort(order, book) ==> result.incoming.remaining > 0)
  {
    var side := order.side.Opposite();
    var book := b.Of(side);
    var start := Progress(st, order.quantity, false, false, []);
    var p := VisitAll(start, order, Candidates(st, order));
    LoopIsWalk(st, order, book);
    EndsAlike(start, p, order, book);
    ScriptRepresents(st, b, order, RestAfter(order, p));
  }

  /** The taker after the engine's walk, from the inputs alone. */
  lemma WalkEnd(order: Order, book: seq<Order>)
    requires ValidSide(order.side.Opposite(), book) && NewOrder(order)
    ensures var w, reach := Walk(order, book).result, Reachable(order, book);
      var left := order.remaining - Min(order.remaining, reach);
      && reach >= 0
      && w.incoming == order.(remaining := left,
                              status := if StoppedShort(order, book) then Cancelled
                                        else if reach == 0 then New else FillStatus(left))
      && (w.trades == [] <==> reach == 0)
  {
    ValidFacts(order.side.Opposite(), book);
    WalkFills(order, book);
    WalkConserves(order, book);
    TradesIffFilled(order, book);
    ReachableNonNegative(order, book);
  }

  /** The last rules of the script and of the engine. */
  lemma EndsAlike(start: Progress, p: Progress, order: Order, book: seq<Order>)
    requires ValidSide(order.side.Opposite(), book) && NewOrder(order)
    requires !order.tif.FOK? && (order.orderType.Market? ==> order.tif.IOC?)
    requires start.trades == [] && SameEffect(start, p, Walk(order, book))
    ensures var result := Match(order, book).result;
      && StatusAfter(order, p) == result.incoming.status
      && RestAfter(order, p) == RestingOf(result)
      && p.trades == result.trades
      && p.store == ScriptUpdates(start.store, result.bookUpdates)
      && p.remaining == (if StoppedShort(order, book) then 0 else result.incoming.remaining)
      && (StoppedShort(order, book) ==> result.incoming.remaining > 0)
  {
    WalkEnd(order, book);
    assert [] + Walk(order, book).result.trades == Walk(order, book).result.trades;
  }

  lemma StoppedIsCancelled(order: Order, book: seq<Order>)
    requires ValidSide(order.side.Opposite(), book) && NewOrder(order) && !order.tif.FOK?
    ensures StoppedShort(order, book) ==> Match(order, book).result.incoming.status.Cancelled?
  {
    WalkEnd(order, book);
  }

  lemma TakerKept(order: Order, book: seq<Order>)
    ensures var last := Match(order, book).result.incoming;
      last == order.(remaining := last.remaining, status := last.status)
  {
    MatchKeepsOrder(order, book);
  }

  // ---- Exactly when the trades are the engine's --------------------------------------------------------

  /** The hashes of the ids have those ids. */
  ghost predicate Named(hashes: Hashes, ids: seq<OrderId>) {
    forall id :: id in ids && id in hashes ==> hashes[id].id == id
  }

  /** The trades from `n` on are with resting orders of these ids. */
  ghost predicate TradesWith(order: Order, trades: seq<Trade>, n: nat, ids: seq<OrderId>) {
    forall i :: n <= i < |trades| ==> Exchange.MakerId(order, trades[i]) in ids
  }

  /** The script only adds trades, and only with the candidates that are left. */
  lemma {:induction false} NewTrades(p: Progress, order: Order, ids: seq<OrderId>)
    requires Named(p.store.hashes, ids)
    ensures var trades := VisitAll(p, order, ids).trades;
      && p.trades <= trades && TradesWith(order, trades, |p.trades|, ids)
    decreases ids
  {
    if ids != [] && p.remaining > 0 && !p.stop {
      var q := Visit(p, order, ids[0]);
      assert Named(q.store.hashes, ids[1..]);
      NewTrades(q, order, ids[1..]);
      assert p.trades <= q.trades && forall i :: |p.trades| <= i < |q.trades| ==>
        Exchange.MakerId(order, q.trades[i]) == ids[0];
    }
  }

  lemma {:induction false} HashesNamed(hashes: Hashes, book: seq<Order>)
    requires InHashes(hashes, book)
    ensures Named(hashes, IdList(book))
    ensures forall id :: id in IdList(book) ==> id in Ids(book)
  {
    if book != [] {
      assert RowAt(hashes, book[0].id) == Some(book[0]);
      assert InHashes(hashes, book[1..]) by {
        assert forall i :: 0 <= i < |book[1..]| ==> book[1..][i] == book[i + 1];
      }
      HashesNamed(hashes, book[1..]);
    }
  }

  /** At an order whose mode is inherited the engine trades, and the script never does. */
  lemma InheritedTrades(p: Progress, order: Order, book: seq<Order>, n: nat)
    requires order.remaining == p.remaining > 0 && !p.stop && 0 < n <= |book| && !Stops(order, book)
    requires ValidSide(order.side.Opposite(), book) && InHashes(p.store.hashes, book) && Inherits(order, book[0])
    requires order.orderType.Limit? <==> order.price.Some?
    ensures VisitAll(p, order, IdList(book[..n])).trades != p.trades + Walk(order, book).result.trades
  {
    var head, near := book[0], book[..n];
    var ids, q := IdList(near), Visit(p, order, head.id);
    assert near[0] == head && near[1..] == book[1..][..n - 1];
    assert ids[0] == head.id && ids[1..] == IdList(near[1..]);
    assert RowAt(p.store.hashes, head.id) == Some(head) && Crosses(order, head);
    assert q.trades == p.trades;
    RestNamed(p, order, book, n, q);
    NewTrades(q, order, ids[1..]);
    var trades := Walk(order, book).result.trades;
    assert trades[0] == TradeOf(order, head, Fill(order, head));
    assert Exchange.MakerId(order, (p.trades + trades)[|p.trades|]) == head.id;
  }

  lemma RestNamed(p: Progress, order: Order, book: seq<Order>, n: nat, q: Progress)
    requires 0 < n <= |book| && InHashes(p.store.hashes, book) && ValidSide(order.side.Opposite(), book)
    requires q.store == p.store || q.store == DropId(p.store, order.side.Opposite(), book[0].id)
    ensures Named(q.store.hashes, IdList(book[1..][..n - 1])) && book[0].id !in IdList(book[1..][..n - 1])
  {
    var rest := book[1..][..n - 1];
    assert forall i :: 0 <= i < |rest| ==> rest[i] == book[i + 1];
    HashesNamed(p.store.hashes, rest);
    ValidIsDistinct(order.side.Opposite(), book);
    PrefixIds(book[1..], n - 1);
  }

  /** Visiting the first `n` orders of the side makes the engine's trades if and only if no mode is
      inherited from those that it acts on, and the engine makes none beyond them. */
  lemma {:induction false} VisitsTradeAlike(p: Progress, order: Order, book: seq<Order>, n: nat)
    requires order.remaining == p.remaining >= 0 && !p.stop && !p.cancelled && n <= |book|
    requires ValidSide(order.side.Opposite(), book) && InHashes(p.store.hashes, book)
    requires order.orderType.Limit? <==> order.price.Some?
    ensures VisitAll(p, order, IdList(book[..n])).trades == p.trades + Walk(order, book).result.trades <==>
      NoneInherited(order, book[..n]) && Walk(order, book[..n]).result.trades == Walk(order, book).result.trades
    decreases book
  {
    var near := book[..n];
    if n == 0 || Stops(order, near) {
      NoVisits(p, order, book, n);
    } else if Inherits(order, book[0]) {
      assert near[0] == book[0] && Visits(order, near) > 0;
      InheritedTrades(p, order, book, n);
    } else if Ends(order, near) {
      assert near[0] == book[0];
      LastOfSome(p, order, book, n);
    } else {
      var q, next, tail := Visit(p, order, book[0].id), Next(order, book[0]), book[1..];
      assert near[0] == book[0] && near[1..] == tail[..n - 1];
      assert RowAt(p.store.hashes, book[0].id) == Some(book[0]) && [book[0]][0] == book[0];
      VisitIsStep(p, order, book[0]);
      RestInHashes(p.store, order, book);
      InheritedInTurn(order, near);
      VisitsTradeAlike(q, next, tail, n - 1);
      FrontTradesAlike(p, q, order, book, n);
    }
  }

  lemma FrontTrades(order: Order, book: seq<Order>)
    requires !Ends(order, book)
    ensures Walk(order, book).result.trades ==
      (if SelfTrade(order, book[0]) then [] else [TradeOf(order, book[0], Fill(order, book[0]))])
      + Walk(Next(order, book[0]), book[1..]).result.trades
  {
  }

  /** Where both go on behind the head. */
  lemma FrontTradesAlike(p: Progress, q: Progress, order: Order, book: seq<Order>, n: nat)
    requires 0 < n <= |book| && !Ends(order, book) && p.remaining > 0 && !p.stop && q == Visit(p, order, book[0].id)
    requires q.trades == p.trades
      + if SelfTrade(order, book[0]) then [] else [TradeOf(order, book[0], Fill(order, book[0]))]
    ensures var next, tail, near := Next(order, book[0]), book[1..], book[..n];
      && (VisitAll(p, order, IdList(near)).trades == p.trades + Walk(order, book).result.trades <==>
            VisitAll(q, next, IdList(tail[..n - 1])).trades == q.trades + Walk(next, tail).result.trades)
      && (Walk(order, near).result.trades == Walk(order, book).result.trades <==>
            Walk(next, tail[..n - 1]).result.trades == Walk(next, tail).result.trades)
  {
    var next, head, tail, near := Next(order, book[0]), book[0], book[1..], book[..n];
    assert near[0] == head && near[1..] == tail[..n - 1];
    assert IdList(near)[0] == head.id && IdList(near)[1..] == IdList(tail[..n - 1]);
    VisitAllIgnoresRemaining(q, order, next, IdList(near)[1..]);
    var step := if SelfTrade(order, head) then [] else [TradeOf(order, head, Fill(order, head))];
    FrontTrades(order, book);
    FrontTrades(order, near);
    SameTrades(p.trades, step, VisitAll(q, order, IdList(near)[1..]).trades, Walk(next, tail).result.trades,
               Walk(next, tail[..n - 1]).result.trades);
  }

  lemma SameTrades(before: seq<Trade>, step: seq<Trade>, all: seq<Trade>, far: seq<Trade>, near: seq<Trade>)
    ensures all == (before + step) + far <==> all == before + (step + far)
    ensures near == far <==> step + near == step + far
  {
    assert (before + step) + far == before + (step + far);
    assert near == (step + near)[|step|..] && far == (step + far)[|step|..];
  }

  /** Where the walk over the first orders has nothing to do. */
  lemma NoVisits(p: Progress, order: Order, book: seq<Order>, n: nat)
    requires order.remaining == p.remaining >= 0 && !p.stop && n <= |book| && (n == 0 || Stops(order, book[..n]))
    requires ValidSide(order.side.Opposite(), book) && InHashes(p.store.hashes, book)
    requires order.orderType.Limit? <==> order.price.Some?
    ensures VisitAll(p, order, IdList(book[..n])).trades == p.trades + Walk(order, book).result.trades <==>
      NoneInherited(order, book[..n]) && Walk(order, book[..n]).result.trades == Walk(order, book).result.trades
  {
    var near := book[..n];
    assert Walk(order, near).result.trades == [] && Visits(order, near) == 0;
    if n > 0 && order.remaining > 0 {
      assert near[0] == book[0] && IdList(near)[0] == book[0].id;
      assert RowAt(p.store.hashes, book[0].id) == Some(book[0]);
      assert Visit(p, order, book[0].id).stop;
    }
    assert VisitAll(p, order, IdList(near)).trades == p.trades;
    var trades := Walk(order, book).result.trades;
    assert p.trades == p.trades + trades ==> |trades| == 0;
    assert p.trades + [] == p.trades;
  }

  /** Where self-trade prevention ends both. */
  lemma LastOfSome(p: Progress, order: Order, book: seq<Order>, n: nat)
    requires order.remaining == p.remaining > 0 && !p.stop && 0 < n <= |book|
    requires Ends(order, book) && !Stops(order, book) && !Inherits(order, book[0])
    requires ValidSide(order.side.Opposite(), book) && InHashes(p.store.hashes, book)
    requires order.orderType.Limit? <==> order.price.Some?
    ensures VisitAll(p, order, IdList(book[..n])).trades == p.trades + Walk(order, book).result.trades
    ensures NoneInherited(order, book[..n]) && Walk(order, book[..n]).result.trades == Walk(order, book).result.trades
  {
    var near := book[..n];
    var ids := IdList(near);
    assert near[0] == book[0] && ids[0] == book[0].id;
    assert RowAt(p.store.hashes, book[0].id) == Some(book[0]);
    var q := Visit(p, order, book[0].id);
    assert q.stop && VisitAll(p, order, ids) == VisitAll(q, order, ids[1..]) == q;
    assert p.trades + [] == p.trades;
  }

  /** The engine makes no trade beyond the first `n` exactly if they fill it as far as the whole side. */
  lemma {:induction false} LimitTrades(order: Order, book: seq<Order>, n: nat)
    requires order.remaining >= 0 && Positive(book) && n <= |book|
    ensures Walk(order, book[..n]).result.trades == Walk(order, book).result.trades <==>
      Min(order.remaining, Reachable(order, book[..n])) == Min(order.remaining, Reachable(order, book))
    decreases book
  {
    ReachableNonNegative(order, book);
    ReachableNonNegative(order, book[..n]);
    if n == 0 {
      assert book[..n] == [];
      if order.remaining > 0 {
        TradesIffFilled(order, book);
      }
    } else {
      var near, head, tail := book[..n], book[0], book[1..];
      assert near[0] == head && near[1..] == tail[..n - 1];
      if !Ends(order, book) {
        var next := Next(order, head);
        LimitTrades(next, tail, n - 1);
        ReachableIgnoresRemaining(order, next, tail);
        ReachableIgnoresRemaining(order, next, tail[..n - 1]);
        ReachableNonNegative(order, tail);
        ReachableNonNegative(order, tail[..n - 1]);
        var step := if SelfTrade(order, head) then [] else [TradeOf(order, head, Fill(order, head))];
        SameTrades([], step, [], Walk(next, tail).result.trades, Walk(next, tail[..n - 1]).result.trades);
        FrontTrades(order, book);
        FrontTrades(order, near);
      }
    }
  }

  /** A taker without a mode trades in the script as in the engine, over a whole side of any length, if and
      only if none of the own orders that the engine trades with has a mode. */
  lemma InheritedExactly(p: Progress, order: Order, book: seq<Order>)
    requires order.remaining == p.remaining >= 0 && !p.stop && !p.cancelled && order.stp.StpNone?
    requires ValidSide(order.side.Opposite(), book) && InHashes(p.store.hashes, book)
    requires order.orderType.Limit? <==> order.price.Some?
    ensures VisitAll(p, order, IdList(book)).trades == p.trades + Walk(order, book).result.trades <==>
      forall i :: 0 <= i < Visits(order, book) && book[i].user == order.user ==> book[i].stp.StpNone?
  {
    assert book[..|book|] == book;
    VisitsTradeAlike(p, order, book, |book|);
  }

  /** The script makes the engine's trades if and only if no mode is inherited from the candidates that the
      engine acts on, and they fill the order as far as the whole side does. */
  lemma ScriptTradesExactly(st: Store, order: Order, book: seq<Order>)
    requires ValidSide(order.side.Opposite(), book) && st.Of(order.side.Opposite()) == Entries(book)
    requires Hashed(st.hashes, book) && NewOrder(order) && !order.tif.FOK?
    ensures var near := book[..Min(Near(book, Bound(order)), 50)];
      Run(st, order).1.trades == Match(order, book).result.trades <==>
        && NoneInherited(order, near)
        && Min(order.remaining, Reachable(order, near)) == Min(order.remaining, Reachable(order, book))
  {
    var side, n := order.side.Opposite(), Loaded(order, book);
    var start := Progress(st, order.quantity, false, false, []);
    assert VisitAll(start, order, Candidates(st, order)).trades == Walk(order, book).result.trades <==>
      NoneInherited(order, book[..n]) && Walk(order, book[..n]).result.trades == Walk(order, book).result.trades by {
      CandidatesAreFirst(st, order, book);
      HashedAt(side, book, st.hashes);
      VisitsTradeAlike(start, order, book, n);
      assert [] + Walk(order, book).result.trades == Walk(order, book).result.trades;
    }
    ValidFacts(side, book);
    LimitTrades(order, book, n);
  }

  // ---- Fifty candidates --------------------------------------------------------------------------------

  /** The script fills the taker as far as the first fifty orders within its price do, if no mode is
      inherited. */
  lemma ScriptFills(st: Store, order: Order, book: seq<Order>)
    requires ValidSide(order.side.Opposite(), book) && st.Of(order.side.Opposite()) == Entries(book)
    requires Hashed(st.hashes, book) && NewOrder(order)
    requires NoneInherited(order, book[..Min(Near(book, Bound(order)), 50)])
    ensures TotalTraded(Run(st, order).1.trades)
         == Min(order.quantity, Reachable(order, book[..Min(Near(book, Bound(order)), 50)]))
  {
    var side, n := order.side.Opposite(), Loaded(order, book);
    var start, near := Progress(st, order.quantity, false, false, []), book[..n];
    CandidatesAreFirst(st, order, book);
    HashedAt(side, book, st.hashes);
    ValidPrefix(side, book, n);
    ValidFacts(side, near);
    VisitsAreWalk(start, order, near);
    assert [] + Walk(order, near).result.trades == Walk(order, near).result.trades;
    WalkConserves(order, near);
    WalkFills(order, near);
  }

  /** One unit each, of other users, within the taker's price. */
  ghost predicate Units(order: Order, book: seq<Order>) {
    forall i :: 0 <= i < |book| ==>
      book[i].remaining == 1 && book[i].user != order.user && PriceMatches(order, book[i])
  }

  lemma {:induction false} UnitsReach(order: Order, book: seq<Order>)
    requires Units(order, book)
    ensures Reachable(order, book) == |book|
  {
    if book != [] {
      assert Units(order, book[1..]) by {
        assert forall i :: 0 <= i < |book[1..]| ==> book[1..][i] == book[i + 1];
      }
      UnitsReach(order, book[1..]);
    }
  }

  lemma {:induction false} UnitsAreNear(order: Order, book: seq<Order>)
    requires ValidSide(order.side.Opposite(), book) && Units(order, book)
    requires order.orderType.Limit? <==> order.price.Some?
    ensures Near(book, Bound(order)) == |book|
  {
    if book != [] {
      assert Units(order, book[1..]) by {
        assert forall i :: 0 <= i < |book[1..]| ==> book[1..][i] == book[i + 1];
      }
      UnitsAreNear(order, book[1..]);
    }
  }

  lemma EngineTradesUnits(order: Order, book: seq<Order>)
    requires ValidSide(order.side.Opposite(), book) && NewOrder(order) && !order.tif.FOK? && Units(order, book)
    ensures TotalTraded(Match(order, book).result.trades) == Min(order.quantity, |book|)
  {
    ValidFacts(order.side.Opposite(), book);
    UnitsReach(order, book);
    WalkConserves(order, book);
    WalkFills(order, book);
  }

  lemma ScriptTradesUnits(st: Store, order: Order, book: seq<Order>)
    requires ValidSide(order.side.Opposite(), book) && st.Of(order.side.Opposite()) == Entries(book)
    requires Hashed(st.hashes, book) && NewOrder(order) && Units(order, book)
    ensures TotalTraded(Run(st, order).1.trades) == Min(order.quantity, Min(|book|, 50))
  {
    var near := book[..Min(|book|, 50)];
    UnitsAreNear(order, book);
    UnitsReach(order, near);
    assert forall i :: 0 <= i < |near| ==> !Inherits(order, near[i]);
    ScriptFills(st, order, book);
  }

  /** Fifty is the limit: of fifty-one such orders a taker of fifty-one trades with fifty in the script, and
      with all in the engine. */
  lemma FiftyOfFiftyOne(st: Store, order: Order, book: seq<Order>)
    requires ValidSide(order.side.Opposite(), book) && st.Of(order.side.Opposite()) == Entries(book)
    requires Hashed(st.hashes, book) && NewOrder(order) && !order.tif.FOK?
    requires |book| == 51 == order.quantity && Units(order, book)
    ensures TotalTraded(Run(st, order).1.trades) == 50
    ensures TotalTraded(Match(order, book).result.trades) == 51
  {
    ScriptTradesUnits(st, order, book);
    EngineTradesUnits(order, book);
  }

  /** A resting market order, which only the script leaves, trades at the taker's price, as the engine's fill
      price has it. */
  lemma MarketMakerPrice(p: Progress, order: Order, id: OrderId)
    requires id in p.store.hashes && !Stale(p.store.hashes, id) && p.remaining > 0
    requires var resting := p.store.hashes[id];
      && resting.orderType.Market? && resting.price.None? && resting.user != order.user && Crosses(order, resting)
    ensures var resting := p.store.hashes[id];
      Visit(p, order, id).trades == p.trades + [TradeOf(order, resting, Min(p.remaining, resting.remaining))]
  {
    assert TradeOf(order, p.store.hashes[id], 1).price == order.PriceOrZero();
  }

  // ---- Stale members, and the version --------------------------------------------------------------------

  /** A member of the set whose hash is gone, closed, or has nothing left. */
  predicate Stale(hashes: Hashes, id: OrderId) {
    id !in hashes || hashes[id].remaining <= 0
    || hashes[id].status == Filled || hashes[id].status == Cancelled || hashes[id].status == Rejected
  }

  function WithoutStale(hashes: Hashes, ids: seq<OrderId>): seq<OrderId> {
    if ids == [] then []
    else (if Stale(hashes, ids[0]) then [] else [ids[0]]) + WithoutStale(hashes, ids[1..])
  }

  lemma {:induction false} StaleElsewhere(before: Hashes, after: Hashes, ids: seq<OrderId>)
    requires forall id :: id in ids ==> RowAt(after, id) == RowAt(before, id)
    ensures WithoutStale(after, ids) == WithoutStale(before, ids)
  {
    if ids != [] {
      assert RowAt(after, ids[0]) == RowAt(before, ids[0]);
      StaleElsewhere(before, after, ids[1..]);
    }
  }

  /** Stale candidates make no difference: the script does what it does without them. */
  lemma {:induction false} StaleIgnored(p: Progress, order: Order, ids: seq<OrderId>)
    requires forall i, j :: 0 <= i < j < |ids| ==> ids[i] != ids[j]
    ensures VisitAll(p, order, ids) == VisitAll(p, order, WithoutStale(p.store.hashes, ids))
    decreases ids
  {
    if ids != [] && p.remaining > 0 && !p.stop {
      var q, more := Visit(p, order, ids[0]), ids[1..];
      assert forall id :: id in more ==> RowAt(q.store.hashes, id) == RowAt(p.store.hashes, id);
      StaleElsewhere(p.store.hashes, q.store.hashes, more);
      StaleIgnored(q, order, more);
      var live := WithoutStale(p.store.hashes, more);
      if Stale(p.store.hashes, ids[0]) {
        assert q == p && [] + live == live;
      } else {
        assert ([ids[0]] + live)[0] == ids[0] && ([ids[0]] + live)[1..] == live;
      }
    }
  }

  /** The script counts the version up, from one if there was none.  A worker of the optimistic protocol that
      read the version before can no longer commit. */
  lemma ScriptInvalidates(st: Store, order: Order, expected: nat, updates: seq<Order>, resting: Option<Order>)
    requires expected == (if st.version.Some? then st.version.value else 0)
    ensures Run(st, order).0.version == Some(expected + 1)
    ensures Cas(Run(st, order).0, expected, updates, resting).None?
  {
    var start := Progress(st, order.quantity, false, false, []);
    VersionStays(start, order, Candidates(st, order));
  }

  lemma {:induction false} VersionStays(p: Progress, order: Order, ids: seq<OrderId>)
    ensures VisitAll(p, order, ids).store.version == p.store.version
    decreases ids
  {
    if ids != [] && p.remaining > 0 && !p.stop {
      VersionStays(Visit(p, order, ids[0]), order, ids[1..]);
    }
  }

  /** Nor does the script leave a hash behind, in the cases in which it refines the engine. */
  lemma ScriptStaysClean(st: Store, b: Books, order: Order)
    requires Represents(st, b) && Clean(st, b) && ValidBooks(b) && NewOrder(order) && order.id !in b.AllIds()
    requires !order.tif.FOK? && (order.orderType.Market? ==> order.tif.IOC?)
    requires NoneInherited(order, b.Of(order.side.Opposite()))
    requires Visits(order, b.Of(order.side.Opposite())) <= 50
    ensures Clean(Run(st, order).0, Submit(b, order))
  {
    var book := b.Of(order.side.Opposite());
    var start := Progress(st, order.quantity, false, false, []);
    var p := VisitAll(start, order, Candidates(st, order));
    LoopIsWalk(st, order, book);
    EndsAlike(start, p, order, book);
    UpdateFacts(order, book);
    MatchKeepsOrder(order, book);
    forall id
      ensures RowAt(Run(st, order).0.hashes, id)
           == Or(Find(Submit(b, order).bids, id), Find(Submit(b, order).asks, id))
    {
      ScriptHashIsCommitHash(st, Match(order, book).result.bookUpdates, RestAfter(order, p), id);
      CommitStaysClean(st, b, order, id);
    }
  }

  // ---- Where the script differs ----------------------------------------------------------------------------

  /** A market order marked good-till-cancelled: the engine never lets it rest, the script does
      whenever something is left of it. */
  lemma MarketRests(st: Store, order: Order, book: seq<Order>)
    requires ValidSide(order.side.Opposite(), book) && st.Of(order.side.Opposite()) == Entries(book)
    requires Hashed(st.hashes, book) && NewOrder(order) && NoneInherited(order, book)
    requires Visits(order, book) <= 50
    requires order.orderType.Market? && order.tif.GTC?
    ensures RestingOf(Match(order, book).result).None?
    ensures
      RestAfter(order, VisitAll(Progress(st, order.quantity, false, false, []), order, Candidates(st, order))).Some?
      <==> Reachable(order, book) < order.remaining && !StoppedShort(order, book)
  {
    LoopIsWalk(st, order, book);
    WalkEnd(order, book);
  }

  /** A taker without a mode meets its own order with one: the engine trades, the script does not.
      CancelMaker and CancelBoth take the resting order out, CancelTaker and CancelBoth end the script
      with nothing left of the taker. */
  lemma InheritedModeDiffers(p: Progress, order: Order, book: seq<Order>)
    requires book != [] && order.remaining == p.remaining > 0 && order.stp.StpNone?
    requires MayRest(order.side.Opposite(), book[0]) && PriceMatches(order, book[0])
    requires book[0].user == order.user && !book[0].stp.StpNone?
    requires RowAt(p.store.hashes, book[0].id) == Some(book[0])
    ensures var mode, q := book[0].stp, Visit(p, order, book[0].id);
      && q.trades == p.trades
      && q.store == (if mode.CancelTaker? then p.store else DropId(p.store, order.side.Opposite(), book[0].id))
      && (!mode.CancelMaker? ==>
            q.remaining == 0 && q.cancelled && VisitAll(p, order, IdList(book)).trades == p.trades)
    ensures |Walk(order, book).result.trades| > 0 && Walk(order, book).result.trades[0].quantity > 0
  {
    var ids := IdList(book);
    assert ids[0] == book[0].id;
    assert Walk(order, book).result.trades[0] == TradeOf(order, book[0], Fill(order, book[0]));
  }
}
