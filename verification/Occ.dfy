/** The optimistic protocol on the cache, in any interleaving of workers that read the version, then
    the ids, then the hashes one by one, write hashes ahead one by one, and swap.
    (crates/shared/src/cache.rs) */
module Occ {
  import opened Types
  import opened Engine
  import opened MatchLaws
  import opened PriorityLaws
  import opened EquivalenceLaws
  import opened SortedBook
  import opened Books
  import opened SolvencyRuns
  import opened Store

  // ---- Workers -----------------------------------------------------------------------------------

  /** What a worker has read and written in its current attempt. */
  datatype Worker = Worker(
    order: Order,
    version: Option<nat>,
    ids: Option<seq<OrderId>>,
    read: nat,
    orders: seq<Order>,
    written: nat)
  {
    function Result(): MatchResult { Match(order, orders).result }

    function Ahead(): seq<Order> { Upserts(Result().bookUpdates, RestingOf(Result())) }

    predicate Loaded() { ids.Some? && read == |ids.value| }
  }

  function Attempt(order: Order): Worker { Worker(order, None, None, 0, [], 0) }

  /** A commit: the order, the ids that its worker had read, and those it removed. */
  datatype Commit = Commit(order: Order, ids: seq<OrderId>, removed: set<OrderId>)

  /** `seen` has the side of every order that ever came up. */
  datatype System = System(store: Store, workers: map<nat, Worker>, seen: map<OrderId, Side>, log: seq<Commit>)

  function ClosedIds(updates: seq<Order>): set<OrderId> {
    if updates == [] then {} else (if updates[0].IsClosed() then {updates[0].id} else {}) + ClosedIds(updates[1..])
  }

  // ---- Steps -------------------------------------------------------------------------------------

  datatype Step = Begin(w: nat, order: Order) | ReadVersion(w: nat) | ReadIds(w: nat) | ReadHash(w: nat)
                | WriteHash(w: nat) | Swap(w: nat)

  predicate Enabled(s: System, step: Step) {
    match step
    case Begin(w, order) => w !in s.workers && NewOrder(order) && order.id !in s.seen
    case ReadVersion(w) => w in s.workers && s.workers[w].version.None?
    case ReadIds(w) => w in s.workers && s.workers[w].version.Some? && s.workers[w].ids.None?
    case ReadHash(w) => w in s.workers && s.workers[w].ids.Some? && s.workers[w].read < |s.workers[w].ids.value|
    case WriteHash(w) => w in s.workers && s.workers[w].Loaded() && s.workers[w].written < |s.workers[w].Ahead()|
    case Swap(w) => w in s.workers && s.workers[w].Loaded() && s.workers[w].written == |s.workers[w].Ahead()|
                    && s.workers[w].version.Some?
  }

  /** An absent version reads as zero. */
  function VersionRead(st: Store): nat { if st.version.Some? then st.version.value else 0 }

  function HashRead(k: Worker, hashes: Hashes): Worker
    requires k.ids.Some? && k.read < |k.ids.value|
  {
    var id := k.ids.value[k.read];
    k.(read := k.read + 1, orders := k.orders + if id in hashes then [hashes[id]] else [])
  }

  function Swapped(s: System, w: nat): Option<Store>
    requires w in s.workers && s.workers[w].version.Some?
  {
    var k := s.workers[w];
    Cas(s.store, k.version.value, k.Result().bookUpdates, RestingOf(k.Result()))
  }

  function HashWritten(s: System, u: Order): System {
    s.(store := s.store.(hashes := s.store.hashes[u.id := u]))
  }

  function CountWrite(s: System, w: nat): System
    requires w in s.workers
  {
    s.(workers := s.workers[w := s.workers[w].(written := s.workers[w].written + 1)])
  }

  function Do(s: System, step: Step): System
    requires Enabled(s, step)
  {
    match step
    case Begin(w, order) => s.(workers := s.workers[w := Attempt(order)], seen := s.seen[order.id := order.side])
    case ReadVersion(w) => s.(workers := s.workers[w := s.workers[w].(version := Some(VersionRead(s.store)))])
    case ReadIds(w) =>
      var k := s.workers[w];
      s.(workers := s.workers[w := k.(ids := Some(Range(s.store.Of(k.order.side.Opposite()), Bound(k.order))))])
    case ReadHash(w) => s.(workers := s.workers[w := HashRead(s.workers[w], s.store.hashes)])
    case WriteHash(w) => CountWrite(HashWritten(s, s.workers[w].Ahead()[s.workers[w].written]), w)
    case Swap(w) =>
      var k := s.workers[w];
      var after := Swapped(s, w);
      if after.None? then s.(workers := s.workers[w := Attempt(k.order)])
      else s.(store := after.value, workers := s.workers - {w},
              log := s.log + [Commit(k.order, k.ids.value, ClosedIds(k.Result().bookUpdates))])
  }

  // ---- The invariant -----------------------------------------------------------------------------

  function Members(z: seq<Entry>): set<OrderId> {
    if z == [] then {} else {z[0].id} + Members(z[1..])
  }

  predicate NoTwice(z: seq<Entry>) {
    z == [] || (z[0].id !in Members(z[1..]) && NoTwice(z[1..]))
  }

  function AllRemoved(log: seq<Commit>): set<OrderId>
    decreases log
  {
    if log == [] then {} else AllRemoved(log[..|log| - 1]) + log[|log| - 1].removed
  }

  /** No id is removed by two commits. */
  predicate RemovedOnce(log: seq<Commit>)
    decreases log
  {
    log == [] || (RemovedOnce(log[..|log| - 1]) && log[|log| - 1].removed !! AllRemoved(log[..|log| - 1]))
  }

  ghost predicate Sided(ids: set<OrderId>, side: Side, seen: map<OrderId, Side>) {
    forall id :: id in ids ==> id in seen && seen[id] == side
  }

  /** The sets have no member twice, and sets and hashes agree with the sides seen. */
  ghost predicate Tame(st: Store, seen: map<OrderId, Side>) {
    && NoTwice(st.bids) && NoTwice(st.asks)
    && Sided(Members(st.bids), Buy, seen) && Sided(Members(st.asks), Sell, seen)
    && forall id :: id in st.hashes ==> st.hashes[id].id == id && id in seen && seen[id] == st.hashes[id].side
  }

  ghost predicate Unrepeated(ids: seq<OrderId>) {
    forall i, j :: 0 <= i < j < |ids| ==> ids[i] != ids[j]
  }

  /** What a worker has read so far. */
  ghost predicate Reads(k: Worker, seen: map<OrderId, Side>) {
    if k.ids.None? then k.read == 0 && k.orders == [] && k.written == 0
    else
      && k.version.Some? && k.read <= |k.ids.value| && Unrepeated(k.ids.value)
      && (forall i :: 0 <= i < |k.ids.value| ==>
            k.ids.value[i] in seen && seen[k.ids.value[i]] == k.order.side.Opposite())
      && Distinct(k.orders)
      && (forall id :: id in Ids(k.orders) ==> id in k.ids.value[..k.read])
      && (forall i :: 0 <= i < |k.orders| ==> k.orders[i].side == k.order.side.Opposite())
  }

  /** While the version has not moved, the ids read are those in the set. */
  ghost predicate Current(k: Worker, st: Store) {
    k.version.Some? && st.version.Some? ==>
      && k.version.value <= st.version.value
      && (k.version == st.version && k.ids.Some? ==>
            k.ids.value == Range(st.Of(k.order.side.Opposite()), Bound(k.order)))
  }

  /** The order of a worker that has not committed was never in the book. */
  ghost predicate Pending(k: Worker, s: System) {
    && NewOrder(k.order) && k.order.id in s.seen && s.seen[k.order.id] == k.order.side
    && k.order.id !in Members(s.store.bids) + Members(s.store.asks) + AllRemoved(s.log)
  }

  ghost predicate Apart(a: Worker, b: Worker) {
    a.order.id != b.order.id && (a.ids.Some? ==> b.order.id !in a.ids.value)
  }

  ghost predicate Safe(s: System) {
    && Tame(s.store, s.seen)
    && (forall w :: w in s.workers ==>
          Reads(s.workers[w], s.seen) && Current(s.workers[w], s.store) && Pending(s.workers[w], s))
    && (forall w, v :: w in s.workers && v in s.workers && w != v ==> Apart(s.workers[w], s.workers[v]))
    && RemovedOnce(s.log)
    && AllRemoved(s.log) !! Members(s.store.bids) + Members(s.store.asks)
    && forall id :: id in AllRemoved(s.log) ==> id in s.seen
  }

  // ---- Sets --------------------------------------------------------------------------------------

  lemma {:induction false} RemMembers(z: seq<Entry>, id: OrderId)
    ensures Members(ZRem(z, id)) == Members(z) - {id}
    ensures NoTwice(z) ==> NoTwice(ZRem(z, id))
  {
    if z != [] {
      RemMembers(z[1..], id);
      assert ([z[0]] + ZRem(z[1..], id))[1..] == ZRem(z[1..], id);
    }
  }

  lemma {:induction false} PutMembers(z: seq<Entry>, e: Entry)
    ensures Members(ZPut(z, e)) == Members(z) + {e.id}
    ensures NoTwice(z) && e.id !in Members(z) ==> NoTwice(ZPut(z, e))
  {
    if z == [] || Below(e, z[0]) {
      assert ([e] + z)[1..] == z;
    } else {
      PutMembers(z[1..], e);
      assert ([z[0]] + ZPut(z[1..], e))[1..] == ZPut(z[1..], e);
    }
  }

  lemma AddMembers(z: seq<Entry>, e: Entry)
    ensures Members(ZAdd(z, e)) == Members(z) + {e.id}
    ensures NoTwice(z) ==> NoTwice(ZAdd(z, e))
  {
    RemMembers(z, e.id);
    PutMembers(ZRem(z, e.id), e);
  }

  lemma {:induction false} RangeFacts(z: seq<Entry>, bound: Option<int>)
    requires NoTwice(z)
    ensures var ids := Range(z, bound);
      Unrepeated(ids) && forall i :: 0 <= i < |ids| ==> ids[i] in Members(z)
  {
    if z != [] {
      RangeFacts(z[1..], bound);
      var ids, rest := Range(z, bound), Range(z[1..], bound);
      if !(bound.Some? && z[0].score > bound.value) {
        assert forall i :: 1 <= i < |ids| ==> ids[i] == rest[i - 1];
      }
    }
  }

  /** A match reports each order of the slice at most once, under its own id and side. */
  lemma UpdatesOfSlice(order: Order, book: seq<Order>, side: Side)
    requires Distinct(book) && forall i :: 0 <= i < |book| ==> book[i].side == side
    ensures var updates := Match(order, book).result.bookUpdates;
      && Distinct(updates) && Ids(updates) <= Ids(book)
      && forall i :: 0 <= i < |updates| ==> updates[i].side == side
  {
    var o := Match(order, book);
    UpdatesArePrefix(order, book);
    WalkKeepsIds(order, book);
    SameIds(book, o.book);
    PrefixIds(o.book, |o.result.bookUpdates|);
  }

  lemma {:induction false} WalkKeepsIds(order: Order, book: seq<Order>)
    ensures var after := Walk(order, book).book;
      |after| == |book| && forall i :: 0 <= i < |book| ==> after[i].id == book[i].id && after[i].side == book[i].side
    decreases book
  {
    if !Ends(order, book) {
      WalkKeepsIds(Next(order, book[0]), book[1..]);
      var after := Walk(order, book).book;
      forall i | 0 <= i < |book| ensures after[i].id == book[i].id && after[i].side == book[i].side {
        assert i > 0 ==> book[i] == book[1..][i - 1] && after[i] == after[1..][i - 1];
      }
    }
  }

  lemma {:induction false} SameIds(a: seq<Order>, b: seq<Order>)
    requires |a| == |b| && forall i :: 0 <= i < |a| ==> a[i].id == b[i].id
    ensures Ids(a) == Ids(b) && (Distinct(a) ==> Distinct(b))
  {
    if a != [] {
      SameIds(a[1..], b[1..]);
    }
  }

  /** The mutations of a commit take the closed orders out and bring no other id in. */
  lemma {:induction false} MutateMembers(st: Store, side: Side, updates: seq<Order>)
    requires Distinct(updates) && forall i :: 0 <= i < |updates| ==> updates[i].side == side
    requires NoTwice(st.Of(side))
    ensures var after := MutateAll(st, updates);
      && after.Of(side.Opposite()) == st.Of(side.Opposite()) && after.version == st.version
      && NoTwice(after.Of(side))
      && Members(after.Of(side)) <= Members(st.Of(side)) + Ids(updates)
      && ClosedIds(updates) <= Ids(updates)
      && ClosedIds(updates) !! Members(after.Of(side))
    ensures forall id :: id in MutateAll(st, updates).hashes ==>
      id in st.hashes && MutateAll(st, updates).hashes[id] == st.hashes[id]
    decreases updates
  {
    if updates != [] {
      var u := updates[0];
      RemMembers(st.Of(side), u.id);
      AddMembers(st.Of(side), EntryOf(u));
      MutateMembers(Mutate(st, u), side, updates[1..]);
    }
  }

  // ---- Every step keeps the invariant -----------------------------------------------------------

  /** A step that only advances one worker. */
  lemma AdvanceKeepsSafe(s: System, w: nat, k: Worker)
    requires Safe(s) && w in s.workers && k.order == s.workers[w].order
    requires Reads(k, s.seen) && Current(k, s.store)
    requires forall v :: v in s.workers && v != w ==> Apart(k, s.workers[v])
    ensures Safe(s.(workers := s.workers[w := k]))
  {
    var s' := s.(workers := s.workers[w := k]);
    forall v | v in s'.workers
      ensures Reads(s'.workers[v], s'.seen) && Current(s'.workers[v], s'.store) && Pending(s'.workers[v], s')
    {
      assert Pending(s.workers[v], s);
    }
    forall a, b | a in s'.workers && b in s'.workers && a != b ensures Apart(s'.workers[a], s'.workers[b]) {
      assert Apart(s.workers[a], s.workers[b]);
    }
  }

  /** A new id comes up. */
  lemma SeenKeepsSafe(s: System, order: Order)
    requires Safe(s) && order.id !in s.seen
    ensures Safe(s.(seen := s.seen[order.id := order.side]))
  {
    var s' := s.(seen := s.seen[order.id := order.side]);
    forall v | v in s.workers
      ensures Reads(s.workers[v], s'.seen) && Current(s.workers[v], s.store) && Pending(s.workers[v], s')
    {
      assert Reads(s.workers[v], s.seen) && Current(s.workers[v], s.store) && Pending(s.workers[v], s);
    }
  }

  /** An id that no worker has read and no worker is working on. */
  lemma NewToAll(s: System, id: OrderId, v: nat)
    requires Safe(s) && id !in s.seen && v in s.workers
    ensures s.workers[v].order.id != id && (s.workers[v].ids.Some? ==> id !in s.workers[v].ids.value)
  {
    assert Reads(s.workers[v], s.seen) && Pending(s.workers[v], s);
  }

  lemma NewToStore(s: System, id: OrderId)
    requires Safe(s) && id !in s.seen
    ensures id !in Members(s.store.bids) + Members(s.store.asks) + AllRemoved(s.log)
  {
  }

  lemma BeginKeepsSafe(s: System, w: nat, order: Order)
    requires Safe(s) && Enabled(s, Begin(w, order))
    ensures Safe(Do(s, Begin(w, order)))
  {
    var s1, s' := s.(seen := s.seen[order.id := order.side]), Do(s, Begin(w, order));
    SeenKeepsSafe(s, order);
    NewToStore(s, order.id);
    forall v | v in s'.workers
      ensures Reads(s'.workers[v], s'.seen) && Current(s'.workers[v], s'.store) && Pending(s'.workers[v], s')
    {
      assert v != w ==> Pending(s.workers[v], s1);
    }
    forall a, b | a in s'.workers && b in s'.workers && a != b ensures Apart(s'.workers[a], s'.workers[b]) {
      if a != w {
        NewToAll(s, order.id, a);
      }
      if b != w {
        NewToAll(s, order.id, b);
      }
      assert a != w && b != w ==> Apart(s.workers[a], s.workers[b]);
    }
  }

  lemma ReadVersionKeepsSafe(s: System, w: nat)
    requires Safe(s) && Enabled(s, ReadVersion(w))
    ensures Safe(Do(s, ReadVersion(w)))
  {
    var k := s.workers[w];
    assert Reads(k, s.seen);
    AdvanceKeepsSafe(s, w, k.(version := Some(VersionRead(s.store))));
  }

  lemma ReadIdsKeepsSafe(s: System, w: nat)
    requires Safe(s) && Enabled(s, ReadIds(w))
    ensures Safe(Do(s, ReadIds(w)))
  {
    var k := s.workers[w];
    var side := k.order.side.Opposite();
    var ids := Range(s.store.Of(side), Bound(k.order));
    RangeFacts(s.store.Of(side), Bound(k.order));
    assert Reads(k, s.seen) && Current(k, s.store) && Pending(k, s);
    forall v | v in s.workers && v != w ensures Apart(k.(ids := Some(ids)), s.workers[v]) {
      assert Apart(k, s.workers[v]) && Pending(s.workers[v], s);
    }
    AdvanceKeepsSafe(s, w, k.(ids := Some(ids)));
  }

  lemma ReadHashKeepsReads(k: Worker, st: Store, seen: map<OrderId, Side>)
    requires Tame(st, seen) && Reads(k, seen) && k.ids.Some? && k.read < |k.ids.value|
    ensures Reads(HashRead(k, st.hashes), seen)
  {
    var ids := k.ids.value;
    var id := ids[k.read];
    assert ids[..k.read + 1] == ids[..k.read] + [id];
    if id in st.hashes {
      var last := [st.hashes[id]];
      assert last[1..] == [];
      assert id !in ids[..k.read];
      DistinctConcat(k.orders, last);
      IdsConcat(k.orders, last);
    } else {
      assert k.orders + [] == k.orders;
    }
  }

  lemma ReadHashKeepsSafe(s: System, w: nat)
    requires Safe(s) && Enabled(s, ReadHash(w))
    ensures Safe(Do(s, ReadHash(w)))
  {
    var k := s.workers[w];
    assert Reads(k, s.seen) && Current(k, s.store);
    ReadHashKeepsReads(k, s.store, s.seen);
    forall v | v in s.workers && v != w ensures Apart(HashRead(k, s.store.hashes), s.workers[v]) {
      assert Apart(k, s.workers[v]);
    }
    AdvanceKeepsSafe(s, w, HashRead(k, s.store.hashes));
  }

  /** The updates of a worker's match: of orders that it read, each once. */
  lemma UpdatesOf(k: Worker, seen: map<OrderId, Side>)
    requires Reads(k, seen) && k.ids.Some?
    ensures var updates := k.Result().bookUpdates;
      && Distinct(updates) && Ids(updates) <= Ids(k.orders)
      && forall i :: 0 <= i < |updates| ==> updates[i].side == k.order.side.Opposite()
  {
    UpdatesOfSlice(k.order, k.orders, k.order.side.Opposite());
  }

  /** A worker writes only hashes of its own order and of orders that it read. */
  lemma AheadAt(k: Worker, seen: map<OrderId, Side>, i: nat)
    requires Reads(k, seen) && k.ids.Some? && i < |k.Ahead()|
    ensures var u := k.Ahead()[i];
      if i < |Live(k.Result().bookUpdates)|
      then u.id in Ids(k.orders) && u.id in k.ids.value && u.side == k.order.side.Opposite()
      else u == k.Result().incoming && u.id == k.order.id && u.side == k.order.side
  {
    var updates := k.Result().bookUpdates;
    UpdatesOf(k, seen);
    LiveMembers(updates);
    if i < |Live(updates)| {
      assert Live(updates)[i] in updates;
      InIds(updates, Live(updates)[i]);
    } else {
      MatchKeepsOrder(k.order, k.orders);
    }
  }

  lemma {:induction false} LiveMembers(book: seq<Order>)
    ensures forall o :: o in Live(book) ==> o in book
  {
    if book != [] {
      LiveMembers(book[1..]);
    }
  }

  lemma {:induction false} InIds(book: seq<Order>, order: Order)
    requires order in book
    ensures order.id in Ids(book)
  {
    if book[0] != order {
      InIds(book[1..], order);
    }
  }

  /** A hash is written, of any id that came up. */
  lemma HashKeepsSafe(s: System, u: Order)
    requires Safe(s) && u.id in s.seen && s.seen[u.id] == u.side
    ensures Safe(HashWritten(s, u))
  {
    var s' := HashWritten(s, u);
    forall v | v in s.workers
      ensures Reads(s.workers[v], s.seen) && Current(s.workers[v], s'.store) && Pending(s.workers[v], s')
    {
      assert Reads(s.workers[v], s.seen) && Current(s.workers[v], s.store) && Pending(s.workers[v], s);
    }
  }

  /** One more write is counted. */
  lemma CountKeepsSafe(s: System, w: nat)
    requires Safe(s) && w in s.workers && s.workers[w].ids.Some?
    ensures Safe(CountWrite(s, w))
  {
    var k := s.workers[w];
    assert Reads(k, s.seen) && Current(k, s.store);
    CountedReads(k, s.seen, s.store);
    CountedApart(s, w);
    AdvanceKeepsSafe(s, w, k.(written := k.written + 1));
  }

  lemma CountedReads(k: Worker, seen: map<OrderId, Side>, st: Store)
    requires Reads(k, seen) && Current(k, st) && k.ids.Some?
    ensures Reads(k.(written := k.written + 1), seen) && Current(k.(written := k.written + 1), st)
  {
  }

  lemma CountedApart(s: System, w: nat)
    requires Safe(s) && w in s.workers
    ensures forall v :: v in s.workers && v != w ==>
      Apart(s.workers[w].(written := s.workers[w].written + 1), s.workers[v])
  {
    forall v | v in s.workers && v != w
      ensures Apart(s.workers[w].(written := s.workers[w].written + 1), s.workers[v])
    {
      assert Apart(s.workers[w], s.workers[v]);
    }
  }

  /** What a worker writes ahead next. */
  lemma NextWrite(s: System, w: nat)
    requires Safe(s) && Enabled(s, WriteHash(w))
    ensures var u := s.workers[w].Ahead()[s.workers[w].written];
      u.id in s.seen && s.seen[u.id] == u.side
  {
    var k := s.workers[w];
    assert Reads(k, s.seen) && Pending(k, s);
    AheadAt(k, s.seen, k.written);
  }

  lemma WriteHashKeepsSafe(s: System, w: nat)
    requires Safe(s) && Enabled(s, WriteHash(w))
    ensures Safe(Do(s, WriteHash(w)))
  {
    var u := s.workers[w].Ahead()[s.workers[w].written];
    NextWrite(s, w);
    HashKeepsSafe(s, u);
    CountKeepsSafe(HashWritten(s, u), w);
  }

  /** What came up and was never in the book. */
  ghost predicate NewToBook(order: Order, st: Store, seen: map<OrderId, Side>) {
    && order.id in seen && seen[order.id] == order.side
    && order.id !in Members(st.bids) + Members(st.asks)
  }

  /** The mutations of a swap keep the sets tame: closed orders leave, only the resting one comes. */
  lemma SwapMembers(st: Store, seen: map<OrderId, Side>, order: Order, updates: seq<Order>, resting: Option<Order>)
    requires var side := order.side.Opposite();
      && Tame(st, seen) && Distinct(updates) && Ids(updates) <= Members(st.Of(side))
      && (forall i :: 0 <= i < |updates| ==> updates[i].side == side)
      && NewToBook(order, st, seen)
      && (resting.Some? ==> resting.value.id == order.id && resting.value.side == order.side)
    ensures var after := Rest(MutateAll(st, updates), resting);
      && Tame(after, seen) && after.version == st.version
      && Members(after.bids) + Members(after.asks) <= Members(st.bids) + Members(st.asks) + {order.id}
      && ClosedIds(updates) <= Members(st.bids) + Members(st.asks)
      && ClosedIds(updates) !! Members(after.bids) + Members(after.asks)
  {
    MutateMembers(st, order.side.Opposite(), updates);
    if resting.Some? {
      AddMembers(st.Of(order.side), EntryOf(resting.value));
    }
  }

  /** A commit, given what it does to the sets. */
  lemma CommitKeepsSafe(s: System, w: nat, after: Store, commit: Commit)
    requires Safe(s) && w in s.workers && s.store.version.Some?
    requires Tame(after, s.seen) && after.version == Some(s.store.version.value + 1)
    requires Members(after.bids) + Members(after.asks)
          <= Members(s.store.bids) + Members(s.store.asks) + {s.workers[w].order.id}
    requires commit.removed <= Members(s.store.bids) + Members(s.store.asks)
    requires commit.removed !! Members(after.bids) + Members(after.asks)
    ensures Safe(s.(store := after, workers := s.workers - {w}, log := s.log + [commit]))
  {
    var k, s' := s.workers[w], s.(store := after, workers := s.workers - {w}, log := s.log + [commit]);
    assert s'.log[..|s'.log| - 1] == s.log;
    assert Pending(k, s);
    forall v | v in s'.workers
      ensures Reads(s'.workers[v], s'.seen) && Current(s'.workers[v], s'.store) && Pending(s'.workers[v], s')
    {
      assert Reads(s.workers[v], s.seen) && Current(s.workers[v], s.store) && Pending(s.workers[v], s);
      assert Apart(k, s.workers[v]);
    }
    forall a, b | a in s'.workers && b in s'.workers && a != b ensures Apart(s'.workers[a], s'.workers[b]) {
      assert Apart(s.workers[a], s.workers[b]);
    }
  }

  /** The ids that a worker read are in the set when its swap succeeds. */
  lemma SwapReadsCurrent(s: System, w: nat)
    requires Safe(s) && Enabled(s, Swap(w)) && Swapped(s, w).Some?
    ensures var k := s.workers[w];
      && k.ids.value == Range(s.store.Of(k.order.side.Opposite()), Bound(k.order))
      && Ids(k.orders) <= Members(s.store.Of(k.order.side.Opposite()))
      && (forall id :: id in Ids(k.orders) ==> id in k.ids.value)
  {
    var k := s.workers[w];
    assert Reads(k, s.seen) && Current(k, s.store);
    RangeFacts(s.store.Of(k.order.side.Opposite()), Bound(k.order));
  }

  lemma {:induction false} ClosedAreUpdates(updates: seq<Order>)
    ensures ClosedIds(updates) <= Ids(updates)
  {
    if updates != [] {
      ClosedAreUpdates(updates[1..]);
    }
  }

  lemma SwapKeepsSafe(s: System, w: nat)
    requires Safe(s) && Enabled(s, Swap(w))
    ensures Safe(Do(s, Swap(w)))
  {
    var k := s.workers[w];
    assert Reads(k, s.seen) && Pending(k, s);
    if Swapped(s, w).None? {
      forall v | v in s.workers && v != w ensures Apart(Attempt(k.order), s.workers[v]) {
        assert Apart(k, s.workers[v]);
      }
      AdvanceKeepsSafe(s, w, Attempt(k.order));
    } else {
      SwapReadsCurrent(s, w);
      UpdatesOf(k, s.seen);
      MatchKeepsOrder(k.order, k.orders);
      SuccessKeepsSafe(s, w, k.Result().bookUpdates, RestingOf(k.Result()));
    }
  }

  /** A successful swap, whatever the match was. */
  lemma SuccessKeepsSafe(s: System, w: nat, updates: seq<Order>, resting: Option<Order>)
    requires Safe(s) && w in s.workers && s.store.version.Some? && s.workers[w].ids.Some?
    requires Distinct(updates) && Ids(updates) <= Members(s.store.Of(s.workers[w].order.side.Opposite()))
    requires forall i :: 0 <= i < |updates| ==> updates[i].side == s.workers[w].order.side.Opposite()
    requires resting.Some? ==>
      resting.value.id == s.workers[w].order.id && resting.value.side == s.workers[w].order.side
    ensures var k, after := s.workers[w], Cas(s.store, s.store.version.value, updates, resting).value;
      Safe(s.(store := after, workers := s.workers - {w},
              log := s.log + [Commit(k.order, k.ids.value, ClosedIds(updates))]))
  {
    var k := s.workers[w];
    var after := Cas(s.store, s.store.version.value, updates, resting).value;
    assert Pending(k, s);
    SwapMembers(s.store, s.seen, k.order, updates, resting);
    CommitKeepsSafe(s, w, after, Commit(k.order, k.ids.value, ClosedIds(updates)));
  }

  // ---- Runs ----------------------------------------------------------------------------------------

  ghost predicate Interleaving(s: System, steps: seq<Step>)
    decreases steps
  {
    steps == [] || (Enabled(s, steps[0]) && Interleaving(Do(s, steps[0]), steps[1..]))
  }

  function DoAll(s: System, steps: seq<Step>): System
    requires Interleaving(s, steps)
    decreases steps
  {
    if steps == [] then s else DoAll(Do(s, steps[0]), steps[1..])
  }

  ghost predicate Start(s: System) { Tame(s.store, s.seen) && s.workers == map[] && s.log == [] }

  lemma StepKeepsSafe(s: System, step: Step)
    requires Safe(s) && Enabled(s, step)
    ensures Safe(Do(s, step))
  {
    match step {
      case Begin(w, order) => BeginKeepsSafe(s, w, order);
      case ReadVersion(w) => ReadVersionKeepsSafe(s, w);
      case ReadIds(w) => ReadIdsKeepsSafe(s, w);
      case ReadHash(w) => ReadHashKeepsSafe(s, w);
      case WriteHash(w) => WriteHashKeepsSafe(s, w);
      case Swap(w) => SwapKeepsSafe(s, w);
    }
  }

  lemma {:induction false} RunKeepsSafe(s: System, steps: seq<Step>)
    requires Safe(s) && Interleaving(s, steps)
    ensures Safe(DoAll(s, steps))
    decreases steps
  {
    if steps != [] {
      StepKeepsSafe(s, steps[0]);
      RunKeepsSafe(Do(s, steps[0]), steps[1..]);
    }
  }

  /** In every interleaving, a swap that succeeds commits against exactly the ids that its worker
      read: they are the ids within its price bound at that moment, and the commit removes only
      some of them. */
  lemma CommitsAgainstWhatItRead(s0: System, steps: seq<Step>, w: nat)
    requires Start(s0) && Interleaving(s0, steps)
    requires var s := DoAll(s0, steps); Enabled(s, Swap(w)) && Swapped(s, w).Some?
    ensures var s := DoAll(s0, steps);
      var k := s.workers[w];
      && k.ids.value == Range(s.store.Of(k.order.side.Opposite()), Bound(k.order))
      && (forall id :: id in ClosedIds(k.Result().bookUpdates) ==> id in k.ids.value)
  {
    RunKeepsSafe(s0, steps);
    var s := DoAll(s0, steps);
    assert Reads(s.workers[w], s.seen);
    SwapReadsCurrent(s, w);
    UpdatesOf(s.workers[w], s.seen);
    ClosedAreUpdates(s.workers[w].Result().bookUpdates);
  }

  lemma {:induction false} RemovedApart(log: seq<Commit>, i: nat, j: nat)
    requires RemovedOnce(log) && i < j < |log|
    ensures log[i].removed !! log[j].removed
    decreases log
  {
    if j < |log| - 1 {
      RemovedApart(log[..|log| - 1], i, j);
    } else {
      RemovedBefore(log[..j], i);
    }
  }

  lemma {:induction false} RemovedBefore(log: seq<Commit>, i: nat)
    requires i < |log|
    ensures log[i].removed <= AllRemoved(log)
    decreases log
  {
    if i < |log| - 1 {
      RemovedBefore(log[..|log| - 1], i);
    }
  }

  /** In every interleaving, no resting order is removed by two commits. */
  lemma NoOrderRemovedTwice(s0: System, steps: seq<Step>, i: nat, j: nat)
    requires Start(s0) && Interleaving(s0, steps) && i < j < |DoAll(s0, steps).log|
    ensures DoAll(s0, steps).log[i].removed !! DoAll(s0, steps).log[j].removed
  {
    RunKeepsSafe(s0, steps);
    RemovedApart(DoAll(s0, steps).log, i, j);
  }

  /** Without the version key nothing ever commits: an absent version reads as zero, and the script
      compares it as a different text.  The swap does not create the key. */
  lemma {:induction false} AbsentVersionBlocks(s: System, steps: seq<Step>)
    requires s.store.version.None? && Interleaving(s, steps)
    ensures DoAll(s, steps).store.version.None? && DoAll(s, steps).log == s.log
    ensures DoAll(s, steps).store.bids == s.store.bids && DoAll(s, steps).store.asks == s.store.asks
    decreases steps
  {
    if steps != [] {
      AbsentVersionBlocks(Do(s, steps[0]), steps[1..]);
    }
  }
}
