/** The cache: sorted sets of scores and ids, order hashes, and a version counter.  Saving,
    removing and loading orders, and the compare-and-swap that commits a match; on a store that
    represents valid books, one cycle of load, match and swap is one submission.
    (crates/shared/src/cache.rs) */
module Store {
  import opened Types
  import opened Engine
  import opened MatchLaws
  import opened PriorityLaws
  import opened EquivalenceLaws
  import opened SortedBook
  import opened Books
  import opened SolvencyRuns
  import opened Recovery

  // ---- Sorted sets and hashes --------------------------------------------------------------------

  datatype Entry = Entry(score: int, id: OrderId)

  predicate Below(a: Entry, b: Entry) { a.score < b.score || (a.score == b.score && a.id < b.id) }

  function ZRem(z: seq<Entry>, id: OrderId): seq<Entry> {
    if z == [] then []
    else if z[0].id == id then ZRem(z[1..], id)
    else [z[0]] + ZRem(z[1..], id)
  }

  function ZPut(z: seq<Entry>, e: Entry): seq<Entry> {
    if z == [] || Below(e, z[0]) then [e] + z else [z[0]] + ZPut(z[1..], e)
  }

  function ZAdd(z: seq<Entry>, e: Entry): seq<Entry> { ZPut(ZRem(z, e.id), e) }

  /** ZRANGEBYSCORE key -inf bound: the members up to the bound, in order. */
  function Range(z: seq<Entry>, bound: Option<int>): seq<OrderId> {
    if z == [] then []
    else if bound.Some? && z[0].score > bound.value then Range(z[1..], bound)
    else [z[0].id] + Range(z[1..], bound)
  }

  type Hashes = map<OrderId, Order>

  /** The orders of the ids whose hash is there; the others are skipped. */
  function Load(hashes: Hashes, ids: seq<OrderId>): seq<Order> {
    if ids == [] then []
    else if ids[0] in hashes then [hashes[ids[0]]] + Load(hashes, ids[1..])
    else Load(hashes, ids[1..])
  }

  /** `version` is None while the key does not exist. */
  datatype Store = Store(version: Option<nat>, bids: seq<Entry>, asks: seq<Entry>, hashes: Hashes) {
    function Of(side: Side): seq<Entry> { if side.Buy? then bids else asks }

    function With(side: Side, z: seq<Entry>): Store {
      if side.Buy? then this.(bids := z) else this.(asks := z)
    }
  }

  function EntryOf(order: Order): Entry { Entry(order.Score(), order.id) }

  function Save(st: Store, order: Order): Store {
    st.With(order.side, ZAdd(st.Of(order.side), EntryOf(order))).(hashes := st.hashes[order.id := order])
  }

  function Remove(st: Store, order: Order): Store {
    st.With(order.side, ZRem(st.Of(order.side), order.id)).(hashes := st.hashes - {order.id})
  }

  // ---- The two phases of a commit ----------------------------------------------------------------

  /** The orders whose hashes are written ahead: what stays in the book, and what rests. */
  function Upserts(updates: seq<Order>, resting: Option<Order>): seq<Order> {
    Live(updates) + if resting.Some? then [resting.value] else []
  }

  function PreWrite(hashes: Hashes, orders: seq<Order>): Hashes
    decreases orders
  {
    if orders == [] then hashes else PreWrite(hashes[orders[0].id := orders[0]], orders[1..])
  }

  /** One mutation of the script: closed orders leave with their hash, others are only added. */
  function Mutate(st: Store, u: Order): Store {
    if u.IsClosed() then Remove(st, u) else st.With(u.side, ZAdd(st.Of(u.side), EntryOf(u)))
  }

  function MutateAll(st: Store, updates: seq<Order>): Store
    decreases updates
  {
    if updates == [] then st else MutateAll(Mutate(st, updates[0]), updates[1..])
  }

  function Rest(st: Store, resting: Option<Order>): Store {
    if resting.None? then st
    else st.With(resting.value.side, ZAdd(st.Of(resting.value.side), EntryOf(resting.value)))
  }

  /** The script: nothing if the version differs, or does not exist; otherwise all mutations. */
  function Cas(st: Store, expected: nat, updates: seq<Order>, resting: Option<Order>): Option<Store> {
    if st.version == Some(expected)
    then Some(Rest(MutateAll(st, updates), resting).(version := Some(expected + 1)))
    else None
  }

  /** The price bound of the load, as a score of the opposite side. */
  function Bound(order: Order): Option<int> { if order.price.Some? then Some(-order.Score()) else None }

  /** What a match stores of the incoming order. */
  function RestingOf(result: MatchResult): Option<Order> {
    if result.incoming.IsOpen() then Some(result.incoming) else None
  }

  // ---- The store against the simple book -----------------------------------------------------------

  function Entries(book: seq<Order>): seq<Entry> {
    if book == [] then [] else [EntryOf(book[0])] + Entries(book[1..])
  }

  /** Every order of the side is in its hash. */
  ghost predicate Hashed(hashes: Hashes, book: seq<Order>) {
    forall id :: Find(book, id).Some? ==> RowAt(hashes, id) == Find(book, id)
  }

  ghost predicate Represents(st: Store, b: Books) {
    && st.bids == Entries(b.bids) && st.asks == Entries(b.asks)
    && Hashed(st.hashes, b.bids) && Hashed(st.hashes, b.asks)
  }

  lemma {:induction false} EntriesRemoved(book: seq<Order>, id: OrderId)
    ensures Entries(RemoveId(book, id)) == ZRem(Entries(book), id)
  {
    if book != [] {
      EntriesRemoved(book[1..], id);
      assert ([book[0]] + RemoveId(book[1..], id))[1..] == RemoveId(book[1..], id);
      assert Entries(book)[1..] == Entries(book[1..]);
    }
  }

  lemma {:induction false} EntriesInserted(book: seq<Order>, order: Order)
    ensures Entries(Insert(book, order)) == ZPut(Entries(book), EntryOf(order))
  {
    if book == [] || Precedes(order, book[0]) {
      assert ([order] + book)[1..] == book;
    } else {
      EntriesInserted(book[1..], order);
      assert ([book[0]] + Insert(book[1..], order))[1..] == Insert(book[1..], order);
      assert Entries(book)[1..] == Entries(book[1..]);
    }
  }

  lemma EntriesUpserted(book: seq<Order>, order: Order)
    ensures Entries(Upsert(book, order)) == ZAdd(Entries(book), EntryOf(order))
  {
    EntriesRemoved(book, order.id);
    EntriesInserted(RemoveId(book, order.id), order);
  }

  // ---- Loading -------------------------------------------------------------------------------------

  /** How many orders of a sorted side are within the bound. */
  function Near(book: seq<Order>, bound: Option<int>): (n: nat)
    ensures n <= |book|
  {
    if book == [] || (bound.Some? && book[0].Score() > bound.value) then 0 else 1 + Near(book[1..], bound)
  }

  lemma {:induction false} NothingInRange(book: seq<Order>, bound: int)
    requires forall i :: 0 <= i < |book| ==> book[i].Score() > bound
    ensures Range(Entries(book), Some(bound)) == []
  {
    if book != [] {
      assert Entries(book)[1..] == Entries(book[1..]);
      NothingInRange(book[1..], bound);
    }
  }

  /** Beyond the near part everything is beyond the bound. */
  lemma {:induction false} FarFromBound(side: Side, book: seq<Order>, bound: Option<int>)
    requires ValidSide(side, book)
    ensures bound.Some? ==> forall i :: Near(book, bound) <= i < |book| ==> book[i].Score() > bound.value
    ensures bound.None? ==> Near(book, bound) == |book|
  {
    if book != [] {
      ValidFacts(side, book);
      if bound.Some? && book[0].Score() > bound.value {
        assert forall i :: 0 < i < |book| ==> Precedes(book[0], book[i]);
      } else {
        FarFromBound(side, book[1..], bound);
        forall i | Near(book, bound) <= i < |book| && bound.Some? ensures book[i].Score() > bound.value {
          assert book[i] == book[1..][i - 1];
        }
      }
    }
  }

  function IdList(book: seq<Order>): seq<OrderId> {
    if book == [] then [] else [book[0].id] + IdList(book[1..])
  }

  lemma {:induction false} IdsInRange(side: Side, book: seq<Order>, bound: Option<int>)
    requires ValidSide(side, book)
    ensures Range(Entries(book), bound) == IdList(book[..Near(book, bound)])
  {
    var n := Near(book, bound);
    if book != [] {
      assert Entries(book)[1..] == Entries(book[1..]);
      if n == 0 {
        ValidFacts(side, book);
        assert forall i :: 0 < i < |book| ==> Precedes(book[0], book[i]);
        NothingInRange(book, bound.value);
      } else {
        assert book[..n][0] == book[0] && book[..n][1..] == book[1..][..n - 1];
        IdsInRange(side, book[1..], bound);
      }
    }
  }

  lemma {:induction false} IdListPrefix(book: seq<Order>, n: nat)
    requires n <= |book|
    ensures |IdList(book)| == |book| && IdList(book)[..n] == IdList(book[..n])
  {
    if n > 0 {
      assert book[..n][0] == book[0] && book[..n][1..] == book[1..][..n - 1];
      IdListPrefix(book[1..], n - 1);
    } else if book != [] {
      IdListPrefix(book[1..], 0);
    }
  }

  lemma {:induction false} LoadsListed(hashes: Hashes, book: seq<Order>)
    requires forall i :: 0 <= i < |book| ==> RowAt(hashes, book[i].id) == Some(book[i])
    ensures Load(hashes, IdList(book)) == book
  {
    if book != [] {
      assert RowAt(hashes, book[0].id) == Some(book[0]);
      assert forall i :: 0 <= i < |book[1..]| ==> book[1..][i] == book[i + 1];
      LoadsListed(hashes, book[1..]);
      assert IdList(book)[1..] == IdList(book[1..]);
    }
  }

  /** Loading up to the bound gives the near part of the side. */
  lemma LoadsNear(side: Side, book: seq<Order>, hashes: Hashes, bound: Option<int>)
    requires ValidSide(side, book)
    requires forall i :: 0 <= i < |book| ==> RowAt(hashes, book[i].id) == Some(book[i])
    ensures Load(hashes, Range(Entries(book), bound)) == book[..Near(book, bound)]
  {
    IdsInRange(side, book, bound);
    LoadsListed(hashes, book[..Near(book, bound)]);
  }

  lemma {:induction false} HashedAt(side: Side, book: seq<Order>, hashes: Hashes)
    requires ValidSide(side, book) && Hashed(hashes, book)
    ensures forall i :: 0 <= i < |book| ==> RowAt(hashes, book[i].id) == Some(book[i])
  {
    ValidIsDistinct(side, book);
    forall i | 0 <= i < |book| ensures RowAt(hashes, book[i].id) == Some(book[i]) {
      FoundAt(book, i);
    }
  }

  /** A price bound that may let in more than the limit, but not less: truncating an off-grid limit
      gives such a one. */
  predicate Reaches(order: Order, bound: Option<int>) {
    bound.Some? ==> order.price.Some? && bound.value >= -order.Score()
  }

  lemma FarIncompatible(order: Order, book: seq<Order>, bound: Option<int>, i: nat)
    requires ValidSide(order.side.Opposite(), book) && Reaches(order, bound) && Near(book, bound) <= i < |book|
    requires order.orderType.Limit? <==> order.price.Some?
    ensures !PriceMatches(order, book[i])
  {
    FarFromBound(order.side.Opposite(), book, bound);
    ValidFacts(order.side.Opposite(), book);
    assert MayRest(order.side.Opposite(), book[i]);
  }

  lemma LoadIsNear(side: Side, book: seq<Order>, hashes: Hashes, bound: Option<int>)
    requires ValidSide(side, book) && Hashed(hashes, book)
    ensures Load(hashes, Range(Entries(book), bound)) == book[..Near(book, bound)]
  {
    HashedAt(side, book, hashes);
    LoadsNear(side, book, hashes, bound);
  }

  /** With its own bound an order loads exactly the resting orders within its price. */
  lemma LoadsCompatible(order: Order, book: seq<Order>, hashes: Hashes)
    requires ValidSide(order.side.Opposite(), book) && Hashed(hashes, book)
    requires order.orderType.Limit? <==> order.price.Some?
    ensures var loaded := Load(hashes, Range(Entries(book), Bound(order)));
      && loaded <= book
      && forall i :: 0 <= i < |book| ==> (PriceMatches(order, book[i]) <==> i < |loaded|)
  {
    var n := Near(book, Bound(order));
    LoadIsNear(order.side.Opposite(), book, hashes, Bound(order));
    ValidFacts(order.side.Opposite(), book);
    forall i | 0 <= i < |book| ensures PriceMatches(order, book[i]) <==> i < n {
      if i < n {
        NearIsWithin(book, Bound(order), i);
      } else {
        FarIncompatible(order, book, Bound(order), i);
      }
    }
    assert book[..n] <= book;
  }

  lemma {:induction false} NearIsWithin(book: seq<Order>, bound: Option<int>, i: nat)
    requires i < Near(book, bound)
    ensures bound.Some? ==> book[i].Score() <= bound.value
  {
    if i > 0 {
      NearIsWithin(book[1..], bound, i - 1);
    }
  }

  /** The load up to any bound that reaches the limit is a prefix of the side, and matching on it is
      matching on the whole side. */
  lemma BoundedLoad(order: Order, book: seq<Order>, hashes: Hashes, bound: Option<int>)
    requires ValidSide(order.side.Opposite(), book) && Hashed(hashes, book)
    requires (order.orderType.Limit? <==> order.price.Some?) && Reaches(order, bound)
    ensures var loaded := Load(hashes, Range(Entries(book), bound));
      && loaded <= book
      && Match(order, loaded).result == Match(order, book).result
  {
    var n := Near(book, bound);
    var near, far := book[..n], book[n..];
    LoadIsNear(order.side.Opposite(), book, hashes, bound);
    forall i | 0 <= i < |far| ensures !PriceMatches(order, far[i]) {
      FarIncompatible(order, book, bound, n + i);
    }
    PrefixIsEnough(order, near, far);
    assert near + far == book;
  }

  // ---- One cycle -------------------------------------------------------------------------------------

  lemma {:induction false} KeptIds(before: seq<Order>, after: seq<Order>)
    requires AllKept(before, after)
    ensures Ids(after) == Ids(before) && (Distinct(before) ==> Distinct(after))
  {
    if before != [] {
      assert AllKept(before[1..], after[1..]) && Keeps(before[0], after[0]);
      KeptIds(before[1..], after[1..]);
    }
  }

  lemma {:induction false} PrefixIds(book: seq<Order>, n: nat)
    requires n <= |book|
    ensures Ids(book[..n]) <= Ids(book) && (Distinct(book) ==> Distinct(book[..n]))
  {
    if n > 0 {
      PrefixIds(book[1..], n - 1);
      assert book[..n][0] == book[0] && book[..n][1..] == book[1..][..n - 1];
    }
  }

  /** The updates of a match: each of a different order of the side. */
  lemma UpdateFacts(order: Order, book: seq<Order>)
    requires ValidSide(order.side.Opposite(), book) && order.remaining >= 0
    ensures var updates := Match(order, book).result.bookUpdates;
      && Distinct(updates) && Ids(updates) <= Ids(book)
      && forall i :: 0 <= i < |updates| ==> updates[i].side == order.side.Opposite()
  {
    var side := order.side.Opposite();
    ValidFacts(side, book);
    ValidIsDistinct(side, book);
    UpdatesArePrefix(order, book);
    if !FokRejects(order, book) {
      var after := Match(order, book).book;
      WalkKeeps(order, book);
      KeptIds(book, after);
      PrefixIds(after, |Match(order, book).result.bookUpdates|);
      assert forall i :: 0 <= i < |book| ==> Keeps(book[i], after[i]);
    }
  }

  /** The script's mutations on the sorted sets are the updates of the simple side. */
  lemma {:induction false} MutatedSets(st: Store, side: Side, book: seq<Order>, updates: seq<Order>)
    requires st.Of(side) == Entries(book)
    requires forall i :: 0 <= i < |updates| ==> updates[i].side == side
    ensures var after := MutateAll(st, updates);
      && after.Of(side) == Entries(ApplyUpdates(book, updates))
      && after.Of(side.Opposite()) == st.Of(side.Opposite())
      && after.version == st.version
    decreases updates
  {
    if updates != [] {
      var u := updates[0];
      EntriesRemoved(book, u.id);
      EntriesUpserted(book, u);
      MutatedSets(Mutate(st, u), side, ApplyUpdate(book, u), updates[1..]);
    }
  }

  /** The hash of one id after all mutations. */
  lemma {:induction false} MutatedHash(st: Store, updates: seq<Order>, id: OrderId)
    requires Distinct(updates)
    ensures var u := Find(updates, id);
      RowAt(MutateAll(st, updates).hashes, id) == if u.Some? && u.value.IsClosed() then None else RowAt(st.hashes, id)
    decreases updates
  {
    if updates != [] {
      MutatedHash(Mutate(st, updates[0]), updates[1..], id);
      FindFacts(updates[1..], id);
    }
  }

  lemma {:induction false} PreWritten(hashes: Hashes, orders: seq<Order>, id: OrderId)
    requires Distinct(orders)
    ensures RowAt(PreWrite(hashes, orders), id) == Or(Find(orders, id), RowAt(hashes, id))
    decreases orders
  {
    if orders != [] {
      PreWritten(hashes[orders[0].id := orders[0]], orders[1..], id);
      FindFacts(orders[1..], id);
    }
  }

  lemma {:induction false} LiveFinds(book: seq<Order>, id: OrderId)
    requires Distinct(book)
    ensures var found := Find(book, id);
      && Find(Live(book), id) == (if found.Some? && found.value.IsClosed() then None else found)
      && Distinct(Live(book)) && Ids(Live(book)) <= Ids(book)
  {
    if book != [] {
      LiveFinds(book[1..], id);
      FindFacts(book[1..], id);
      FindFacts(Live(book[1..]), id);
      assert ([book[0]] + Live(book[1..]))[1..] == Live(book[1..]);
    }
  }

  /** The orders written ahead are in their hashes. */
  ghost predicate Prepared(hashes: Hashes, orders: seq<Order>) {
    forall id :: Find(orders, id).Some? ==> RowAt(hashes, id) == Find(orders, id)
  }

  lemma UpsertsFind(updates: seq<Order>, resting: Option<Order>, id: OrderId)
    requires Distinct(updates) && (resting.Some? ==> resting.value.id !in Ids(updates))
    ensures Distinct(Upserts(updates, resting))
    ensures Find(Upserts(updates, resting), id) ==
      var u := Find(updates, id);
      if u.Some? then (if u.value.IsClosed() then None else u)
      else if resting.Some? && resting.value.id == id then resting
      else None
  {
    LiveFinds(updates, id);
    FindFacts(updates, id);
    if resting.Some? {
      var last := [resting.value];
      assert last[1..] == [];
      DistinctConcat(Live(updates), last);
      FindConcat(Live(updates), last, id);
    } else {
      assert Upserts(updates, resting) == Live(updates);
    }
  }

  /** Writing ahead prepares. */
  lemma PreWritePrepares(hashes: Hashes, updates: seq<Order>, resting: Option<Order>)
    requires Distinct(updates) && (resting.Some? ==> resting.value.id !in Ids(updates))
    ensures Prepared(PreWrite(hashes, Upserts(updates, resting)), Upserts(updates, resting))
  {
    forall id ensures Find(Upserts(updates, resting), id).Some? ==>
      RowAt(PreWrite(hashes, Upserts(updates, resting)), id) == Find(Upserts(updates, resting), id)
    {
      UpsertsFind(updates, resting, id);
      PreWritten(hashes, Upserts(updates, resting), id);
    }
  }

  /** What is found in a side after updates of different orders. */
  lemma {:induction false} FindApplied(side: Side, book: seq<Order>, updates: seq<Order>, id: OrderId)
    requires ValidSide(side, book) && Distinct(updates)
    requires forall i :: 0 <= i < |updates| ==> !updates[i].IsClosed() ==> MayRest(side, updates[i])
    ensures var u := Find(updates, id);
      Find(ApplyUpdates(book, updates), id) == if u.Some? then (if u.value.IsClosed() then None else u)
          else Find(book, id)
    decreases updates
  {
    if updates != [] {
      var u, more := updates[0], updates[1..];
      FindRemoved(book, u.id, id);
      RemoveFacts(side, book, u.id);
      if !u.IsClosed() {
        FindUpserted(side, book, u, id);
        InsertFacts(side, RemoveId(book, u.id), u);
      }
      FindFacts(more, id);
      FindApplied(side, ApplyUpdate(book, u), more, id);
    }
  }

  lemma RestSets(st: Store, b: Books, side: Side, resting: Option<Order>)
    requires st.bids == Entries(b.bids) && st.asks == Entries(b.asks)
    requires resting.Some? ==> resting.value.side == side
    ensures var after := if resting.Some? then b.With(side, Upsert(b.Of(side), resting.value)) else b;
      && Rest(st, resting).bids == Entries(after.bids) && Rest(st, resting).asks == Entries(after.asks)
      && Rest(st, resting).hashes == st.hashes && Rest(st, resting).version == st.version
  {
    if resting.Some? {
      EntriesUpserted(b.Of(side), resting.value);
    }
  }

  /** The sides of the store and of the simple books after a commit. */
  lemma CommitSets(st: Store, b: Books, order: Order, result: MatchResult)
    requires st.bids == Entries(b.bids) && st.asks == Entries(b.asks)
    requires ValidBooks(b) && NewOrder(order) && result == Match(order, b.Of(order.side.Opposite())).result
    ensures var after := Rest(MutateAll(st, result.bookUpdates), RestingOf(result));
      && after.bids == Entries(Submit(b, order).bids) && after.asks == Entries(Submit(b, order).asks)
      && after.hashes == MutateAll(st, result.bookUpdates).hashes && after.version == st.version
  {
    var side := order.side.Opposite();
    UpdateFacts(order, b.Of(side));
    MutatedSets(st, side, b.Of(side), result.bookUpdates);
    ValidFacts(side, b.Of(side));
    Conservation(order, b.Of(side));
    RestSets(MutateAll(st, result.bookUpdates), b.With(side, ApplyUpdates(b.Of(side), result.bookUpdates)),
             order.side, RestingOf(result));
  }

  /** What is found in the books after a commit is what the mutated hashes hold. */
  lemma CommitHash(st: Store, b: Books, order: Order, id: OrderId)
    requires ValidBooks(b) && NewOrder(order) && order.id !in b.AllIds()
    requires var result := Match(order, b.Of(order.side.Opposite())).result;
      Prepared(st.hashes, Upserts(result.bookUpdates, RestingOf(result)))
    requires var result := Match(order, b.Of(order.side.Opposite())).result;
      Find(Upserts(result.bookUpdates, RestingOf(result)), id).None? ==>
        && (Find(b.bids, id).Some? ==> RowAt(st.hashes, id) == Find(b.bids, id))
        && (Find(b.asks, id).Some? ==> RowAt(st.hashes, id) == Find(b.asks, id))
    ensures var after := MutateAll(st, Match(order, b.Of(order.side.Opposite())).result.bookUpdates).hashes;
      && (Find(Submit(b, order).bids, id).Some? ==> RowAt(after, id) == Find(Submit(b, order).bids, id))
      && (Find(Submit(b, order).asks, id).Some? ==> RowAt(after, id) == Find(Submit(b, order).asks, id))
  {
    var side := order.side.Opposite();
    var book, own := b.Of(side), b.Of(order.side);
    var result := Match(order, book).result;
    UpdateFacts(order, book);
    UpdatesMayRest(order, book);
    ValidFacts(side, book);
    Conservation(order, book);
    UpsertsFind(result.bookUpdates, RestingOf(result), id);
    MutatedHash(st, result.bookUpdates, id);
    FindApplied(side, book, result.bookUpdates, id);
    FindFacts(result.bookUpdates, id);
    FindFacts(b.bids, id);
    FindFacts(b.asks, id);
    if result.incoming.IsOpen() {
      FindUpserted(order.side, own, result.incoming, id);
    }
  }

  lemma UpdatesMayRest(order: Order, book: seq<Order>)
    requires ValidSide(order.side.Opposite(), book) && order.remaining >= 0
    ensures var updates := Match(order, book).result.bookUpdates;
      forall i :: 0 <= i < |updates| ==> !updates[i].IsClosed() ==> MayRest(order.side.Opposite(), updates[i])
  {
    var side := order.side.Opposite();
    ValidFacts(side, book);
    UpdatesArePrefix(order, book);
    if !FokRejects(order, book) {
      WalkKeeps(order, book);
      assert forall i :: 0 <= i < |book| ==> Keeps(book[i], Match(order, book).book[i]) && MayRest(side, book[i]);
    }
  }

  /** A commit of prepared hashes represents the submission. */
  lemma CommitRepresents(st: Store, b: Books, order: Order)
    requires st.bids == Entries(b.bids) && st.asks == Entries(b.asks) && st.version.Some?
    requires ValidBooks(b) && NewOrder(order) && order.id !in b.AllIds()
    requires var result := Match(order, b.Of(order.side.Opposite())).result;
      var upserts := Upserts(result.bookUpdates, RestingOf(result));
      && Prepared(st.hashes, upserts)
      && forall id :: Find(upserts, id).None? ==>
           && (Find(b.bids, id).Some? ==> RowAt(st.hashes, id) == Find(b.bids, id))
           && (Find(b.asks, id).Some? ==> RowAt(st.hashes, id) == Find(b.asks, id))
    ensures var result := Match(order, b.Of(order.side.Opposite())).result;
      var after := Cas(st, st.version.value, result.bookUpdates, RestingOf(result));
      && after.Some? && Represents(after.value, Submit(b, order)) && after.value.version == Some(st.version.value + 1)
  {
    var result := Match(order, b.Of(order.side.Opposite())).result;
    CommitSets(st, b, order, result);
    var after := Cas(st, st.version.value, result.bookUpdates, RestingOf(result)).value;
    forall id
      ensures Find(Submit(b, order).bids, id).Some? ==> RowAt(after.hashes, id) == Find(Submit(b, order).bids, id)
      ensures Find(Submit(b, order).asks, id).Some? ==> RowAt(after.hashes, id) == Find(Submit(b, order).asks, id)
    {
      CommitHash(st, b, order, id);
    }
  }

  /** One worker alone: load up to the price bound, match, write ahead, swap.  The store then
      represents the books after the submission. */
  function Cycle(st: Store, order: Order): Option<Store> {
    var loaded := Load(st.hashes, Range(st.Of(order.side.Opposite()), Bound(order)));
    var result := Match(order, loaded).result;
    var resting := RestingOf(result);
    var ahead := st.(hashes := PreWrite(st.hashes, Upserts(result.bookUpdates, resting)));
    Cas(ahead, if st.version.Some? then st.version.value else 0, result.bookUpdates, resting)
  }

  lemma CycleIsSubmit(st: Store, b: Books, order: Order)
    requires Represents(st, b) && ValidBooks(b) && NewOrder(order) && order.id !in b.AllIds()
    ensures Cycle(st, order).Some? <==> st.version.Some?
    ensures st.version.Some? ==>
      && Represents(Cycle(st, order).value, Submit(b, order))
      && Cycle(st, order).value.version == Some(st.version.value + 1)
  {
    var side := order.side.Opposite();
    BoundedLoad(order, b.Of(side), st.hashes, Bound(order));
    if st.version.Some? {
      var result := Match(order, b.Of(side)).result;
      var upserts := Upserts(result.bookUpdates, RestingOf(result));
      UpdateFacts(order, b.Of(side));
      ValidFacts(side, b.Of(side));
      Conservation(order, b.Of(side));
      PreWritePrepares(st.hashes, result.bookUpdates, RestingOf(result));
      forall id | Find(upserts, id).None? ensures RowAt(PreWrite(st.hashes, upserts), id) == RowAt(st.hashes, id) {
        UpsertsFind(result.bookUpdates, RestingOf(result), id);
        PreWritten(st.hashes, upserts, id);
      }
      CommitRepresents(st.(hashes := PreWrite(st.hashes, upserts)), b, order);
    }
  }

  /** There is a hash for every order of the books, and no other. */
  ghost predicate Clean(st: Store, b: Books) {
    forall id :: RowAt(st.hashes, id) == Or(Find(b.bids, id), Find(b.asks, id))
  }

  /** The hash of an id after both phases of a commit. */
  lemma CommitStaysClean(st: Store, b: Books, order: Order, id: OrderId)
    requires ValidBooks(b) && NewOrder(order) && order.id !in b.AllIds()
    requires RowAt(st.hashes, id) == Or(Find(b.bids, id), Find(b.asks, id))
    ensures var result := Match(order, b.Of(order.side.Opposite())).result;
      var ahead := st.(hashes := PreWrite(st.hashes, Upserts(result.bookUpdates, RestingOf(result))));
      RowAt(MutateAll(ahead, result.bookUpdates).hashes, id)
      == Or(Find(Submit(b, order).bids, id), Find(Submit(b, order).asks, id))
  {
    var side := order.side.Opposite();
    var book, own := b.Of(side), b.Of(order.side);
    var result := Match(order, book).result;
    var upserts := Upserts(result.bookUpdates, RestingOf(result));
    UpdateFacts(order, book);
    UpdatesMayRest(order, book);
    MatchKeepsOrder(order, book);
    UpsertsFind(result.bookUpdates, RestingOf(result), id);
    PreWritten(st.hashes, upserts, id);
    MutatedHash(st.(hashes := PreWrite(st.hashes, upserts)), result.bookUpdates, id);
    FindApplied(side, book, result.bookUpdates, id);
    FindFacts(result.bookUpdates, id);
    FindFacts(b.bids, id);
    FindFacts(b.asks, id);
    if result.incoming.IsOpen() {
      FindUpserted(order.side, own, result.incoming, id);
    }
  }

  /** A cycle leaves no hash behind: neither of an order that it filled or cancelled, nor any other. */
  lemma CycleStaysClean(st: Store, b: Books, order: Order)
    requires Represents(st, b) && Clean(st, b) && ValidBooks(b)
    requires NewOrder(order) && order.id !in b.AllIds() && st.version.Some?
    ensures Cycle(st, order).Some? && Clean(Cycle(st, order).value, Submit(b, order))
  {
    var after := Cycle(st, order);
    CycleIsSubmit(st, b, order);
    BoundedLoad(order, b.Of(order.side.Opposite()), st.hashes, Bound(order));
    forall id
      ensures RowAt(after.value.hashes, id) == Or(Find(Submit(b, order).bids, id), Find(Submit(b, order).asks, id))
    {
      CommitStaysClean(st, b, order, id);
    }
  }

  // ---- The cache -----------------------------------------------------------------------------------

  /** The cache of one pair, updated in place. */
  class Cache {
    var version: Option<nat>
    var bids: seq<Entry>
    var asks: seq<Entry>
    var hashes: Hashes

    function Now(): Store
      reads this
    {
      Store(version, bids, asks, hashes)
    }

    method SetOf(side: Side, z: seq<Entry>)
      modifies this`bids, this`asks
      ensures Now() == old(Now()).With(side, z)
    {
      if side.Buy? { bids := z; } else { asks := z; }
    }

    method SaveOrderToBook(order: Order)
      modifies this
      ensures Now() == Save(old(Now()), order)
    {
      SetOf(order.side, ZAdd(Now().Of(order.side), EntryOf(order)));
      hashes := hashes[order.id := order];
    }

    method RemoveOrderFromBook(order: Order)
      modifies this
      ensures Now() == Remove(old(Now()), order)
    {
      SetOf(order.side, ZRem(Now().Of(order.side), order.id));
      hashes := hashes - {order.id};
    }

    /** The loaded orders and the version to swap against. */
    method LoadOrderBookSnapshot(order: Order) returns (orders: seq<Order>, expected: nat)
      ensures orders == Load(hashes, Range(Now().Of(order.side.Opposite()), Bound(order)))
      ensures expected == if version.Some? then version.value else 0
    {
      expected := if version.Some? then version.value else 0;
      var ids := Range(Now().Of(order.side.Opposite()), Bound(order));
      orders := [];
      var i := 0;
      assert ids[0..] == ids;
      while i < |ids|
        invariant 0 <= i <= |ids|
        invariant Load(hashes, ids) == orders + Load(hashes, ids[i..])
      {
        assert ids[i..][0] == ids[i] && ids[i..][1..] == ids[i + 1..];
        if ids[i] in hashes {
          orders := orders + [hashes[ids[i]]];
        }
        i := i + 1;
      }
    }

    /** Phase one: the hashes of what stays or rests. */
    method WriteAhead(upserts: seq<Order>)
      modifies this`hashes
      ensures hashes == PreWrite(old(hashes), upserts)
    {
      var i := 0;
      assert upserts[0..] == upserts;
      while i < |upserts|
        invariant 0 <= i <= |upserts|
        invariant PreWrite(hashes, upserts[i..]) == PreWrite(old(hashes), upserts)
      {
        assert upserts[i..][0] == upserts[i] && upserts[i..][1..] == upserts[i + 1..];
        hashes := hashes[upserts[i].id := upserts[i]];
        i := i + 1;
      }
    }

    /** The loop of the script over the reported updates. */
    method MutateBook(updates: seq<Order>)
      modifies this
      ensures Now() == MutateAll(old(Now()), updates)
    {
      var j := 0;
      assert updates[0..] == updates;
      while j < |updates|
        invariant 0 <= j <= |updates|
        invariant MutateAll(Now(), updates[j..]) == MutateAll(old(Now()), updates)
      {
        var u := updates[j];
        assert updates[j..][0] == u && updates[j..][1..] == updates[j + 1..];
        if u.status.Filled? || u.status.Cancelled? {
          RemoveOrderFromBook(u);
        } else {
          SetOf(u.side, ZAdd(Now().Of(u.side), EntryOf(u)));
        }
        j := j + 1;
      }
    }

    /** Phase one happens whatever the version is; phase two swaps. */
    method ApplyBookMutationsCas(expected: nat, updates: seq<Order>, resting: Option<Order>) returns (ok: bool)
      modifies this
      ensures var ahead := old(Now()).(hashes := PreWrite(old(hashes), Upserts(updates, resting)));
        var swapped := Cas(ahead, expected, updates, resting);
        && (ok <==> swapped.Some?)
        && Now() == if ok then swapped.value else ahead
    {
      WriteAhead(Upserts(updates, resting));
      if version != Some(expected) {
        return false;
      }
      MutateBook(updates);
      if resting.Some? {
        SetOf(resting.value.side, ZAdd(Now().Of(resting.value.side), EntryOf(resting.value)));
      }
      version := Some(expected + 1);
      ok := true;
    }
  }
}
