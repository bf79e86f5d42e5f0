/** The per-pair lock: SET NX EX with the worker id as value, a fence counter, an owner-checked
    release, crashes and expiry; and the cycle of load, match and write-back that it protects.
    (crates/shared/src/lock.rs) */
module PairLock {
  import opened Types
  import opened Engine
  import opened MatchLaws
  import opened PriorityLaws
  import opened EquivalenceLaws
  import opened SortedBook
  import opened Books
  import opened SolvencyRuns
  import opened Recovery
  import opened Store

  /** Ticks that a lock lives. */
  const TTL := 5

  /** The value of the lock key is the worker's id alone. */
  datatype Lease = Lease(owner: nat, until: nat)

  /** A worker inside: the lock is set, then the fence is counted, then it works. */
  datatype Section =
    | Entered(until: nat, order: Order)
    | Guarded(until: nat, order: Order, token: nat)
    | Working(until: nat, order: Order, token: nat, loaded: Books, written: nat)

  /** `drops` are the workers whose dropped guard has still to release in the background; `orders`
      and `trades` are all so far. */
  datatype Hall = Hall(
    now: nat,
    lease: Option<Lease>,
    fence: nat,
    inside: map<nat, Section>,
    drops: multiset<nat>,
    books: Books,
    orders: map<OrderId, Order>,
    trades: seq<Trade>,
    tokens: seq<nat>)

  predicate HeldAt(lease: Option<Lease>, now: nat) { lease.Some? && now < lease.value.until }

  predicate Held(s: Hall) { HeldAt(s.lease, s.now) }

  /** Deletes the key if its value is the worker's id; the fence token plays no part. */
  function Freed(s: Hall, w: nat): Option<Lease> {
    if Held(s) && s.lease.value.owner == w then None else s.lease
  }

  // ---- The protected cycle -------------------------------------------------------------------------

  function ResultFor(b: Books, order: Order): MatchResult { Match(order, b.Of(order.side.Opposite())).result }

  /** What a cycle writes back: the updates, then the resting remainder. */
  function Writes(result: MatchResult): seq<Order> {
    result.bookUpdates + if result.incoming.IsOpen() then [result.incoming] else []
  }

  function ApplyWrite(b: Books, u: Order): Books { b.With(u.side, ApplyUpdate(b.Of(u.side), u)) }

  function ApplyWrites(b: Books, writes: seq<Order>): Books
    decreases writes
  {
    if writes == [] then b else ApplyWrites(ApplyWrite(b, writes[0]), writes[1..])
  }

  // ---- Steps ---------------------------------------------------------------------------------------

  datatype Step = Acquire(w: nat, order: Order) | Count(w: nat, failed: bool) | LoadBook(w: nat) | Write(w: nat)
                | Release(w: nat) | Crash(w: nat) | Drop(w: nat) | LateRelease(w: nat) | Tick

  /** What the code allows. */
  predicate Possible(s: Hall, step: Step) {
    match step
    case Acquire(w, order) => w !in s.inside && !Held(s) && NewOrder(order) && order.id !in s.orders
    case Count(w, _) => w in s.inside && s.inside[w].Entered?
    case LoadBook(w) => w in s.inside && s.inside[w].Guarded?
    case Write(w) =>
      w in s.inside && s.inside[w].Working?
      && s.inside[w].written < |Writes(ResultFor(s.inside[w].loaded, s.inside[w].order))|
    case Release(w) =>
      w in s.inside && s.inside[w].Working?
      && s.inside[w].written == |Writes(ResultFor(s.inside[w].loaded, s.inside[w].order))|
    case Crash(w) => w in s.inside
    case Drop(w) => w in s.inside
    case LateRelease(w) => w in s.drops
    case Tick => true
  }

  function Do(s: Hall, step: Step): Hall
    requires Possible(s, step)
  {
    match step
    case Acquire(w, order) =>
      s.(lease := Some(Lease(w, s.now + TTL)), inside := s.inside[w := Entered(s.now + TTL, order)],
         orders := s.orders[order.id := order])
    case Count(w, failed) =>
      var token := if failed then 1 else s.fence + 1;
      s.(fence := if failed then s.fence else s.fence + 1, tokens := s.tokens + [token],
         inside := s.inside[w := Guarded(s.inside[w].until, s.inside[w].order, token)])
    case LoadBook(w) =>
      var k := s.inside[w];
      s.(inside := s.inside[w := Working(k.until, k.order, k.token, s.books, 0)])
    case Write(w) =>
      var k := s.inside[w];
      s.(books := ApplyWrite(s.books, Writes(ResultFor(k.loaded, k.order))[k.written]),
         inside := s.inside[w := k.(written := k.written + 1)])
    case Release(w) =>
      var k := s.inside[w];
      s.(lease := Freed(s, w), inside := s.inside - {w}, trades := s.trades + ResultFor(k.loaded, k.order).trades)
    case Crash(w) => s.(inside := s.inside - {w})
    case Drop(w) => s.(inside := s.inside - {w}, drops := s.drops + multiset{w})
    case LateRelease(w) => s.(lease := Freed(s, w), drops := s.drops - multiset{w})
    case Tick => s.(now := s.now + 1)
  }

  /** What the theorems assume of the workers: no section outlives its lock, and no dropped guard
      releases while its worker is inside again. */
  predicate Disciplined(s: Hall, step: Step) {
    && (step.Tick? ==> forall w :: w in s.inside ==> s.now + 1 < s.inside[w].until)
    && (step.LateRelease? ==> step.w !in s.inside)
  }

  // ---- Mutual exclusion ------------------------------------------------------------------------------

  /** Whoever is inside holds the lock. */
  ghost predicate Exclusive(s: Hall) {
    forall w :: w in s.inside ==>
      s.now < s.inside[w].until && s.lease == Some(Lease(w, s.inside[w].until))
  }

  lemma StepKeepsExclusive(s: Hall, step: Step)
    requires Exclusive(s) && Possible(s, step) && Disciplined(s, step)
    ensures Exclusive(Do(s, step))
  {
    var s' := Do(s, step);
    forall w | w in s'.inside
      ensures s'.now < s'.inside[w].until && s'.lease == Some(Lease(w, s'.inside[w].until))
    {
      assert w in s.inside || (step.Acquire? && step.w == w);
    }
  }

  ghost predicate Reachable(s: Hall, steps: seq<Step>)
    decreases steps
  {
    steps == []
    || (Possible(s, steps[0]) && Disciplined(s, steps[0]) && Reachable(Do(s, steps[0]), steps[1..]))
  }

  function DoAll(s: Hall, steps: seq<Step>): Hall
    requires Reachable(s, steps)
    decreases steps
  {
    if steps == [] then s else DoAll(Do(s, steps[0]), steps[1..])
  }

  /** Nobody inside, nothing issued, and the books of some orders. */
  ghost predicate Opening(s: Hall) {
    && s.inside == map[] && s.drops == multiset{} && s.trades == [] && s.tokens == []
    && Whole(s.books, s.orders) && Paid(s.books, s.orders, s.trades)
  }

  lemma {:induction false} RunKeepsExclusive(s: Hall, steps: seq<Step>)
    requires Exclusive(s) && Reachable(s, steps)
    ensures Exclusive(DoAll(s, steps))
    decreases steps
  {
    if steps != [] {
      StepKeepsExclusive(s, steps[0]);
      RunKeepsExclusive(Do(s, steps[0]), steps[1..]);
    }
  }

  /** Mutual exclusion: at any time at most one worker is between acquiring and releasing, and it
      owns the lock; a release by anybody else leaves the lock as it is. */
  lemma MutualExclusion(s0: Hall, steps: seq<Step>, w: nat, v: nat)
    requires Opening(s0) && Reachable(s0, steps)
    requires w in DoAll(s0, steps).inside
    ensures v in DoAll(s0, steps).inside ==> v == w
    ensures Held(DoAll(s0, steps)) && DoAll(s0, steps).lease.value.owner == w
    ensures v != w ==> Freed(DoAll(s0, steps), v) == DoAll(s0, steps).lease
  {
    RunKeepsExclusive(s0, steps);
  }

  /** A lock is held for exactly five ticks, if nobody releases it. */
  lemma LeaseLasts(s: Hall, w: nat, order: Order, ticks: nat)
    requires Possible(s, Acquire(w, order))
    ensures var acquired := Do(s, Acquire(w, order));
      Held(acquired.(now := acquired.now + ticks)) <==> ticks < 5
  {
  }

  /** A crashed worker, and one whose guard is dropped, keep the others out until the lock runs out. */
  lemma AbandonedHolds(s: Hall, w: nat, v: nat, order: Order, ticks: nat)
    requires Exclusive(s) && w in s.inside && v != w && v !in s.inside
    requires NewOrder(order) && order.id !in s.orders
    ensures forall step :: step == Crash(w) || step == Drop(w) ==>
      var left := Do(s, step);
      Possible(left.(now := left.now + ticks), Acquire(v, order)) <==> s.now + ticks >= s.inside[w].until
  {
  }

  /** A section that outlives its lock: the next worker enters while it is still inside. */
  lemma OverrunAdmits(s: Hall, w: nat, v: nat, order: Order)
    requires Exclusive(s) && w in s.inside && v != w && v !in s.inside
    requires NewOrder(order) && order.id !in s.orders
    ensures var s1 := Do(s, Tick);
      Possible(s1, Acquire(v, order)) <==> s.now + 1 >= s.inside[w].until
    ensures s.now + 1 >= s.inside[w].until ==>
      w in Do(Do(s, Tick), Acquire(v, order)).inside && v in Do(Do(s, Tick), Acquire(v, order)).inside
  {
  }

  /** The release compares the worker's id only: the background release of a dropped guard frees the
      lock that the same worker has acquired since, under a later token, and the next worker enters. */
  lemma LateReleaseAdmits(s: Hall, w: nat, v: nat, order: Order)
    requires w in s.inside && w in s.drops && Held(s) && s.lease.value.owner == w
    requires v != w && v !in s.inside && NewOrder(order) && order.id !in s.orders
    ensures Possible(s, LateRelease(w))
    ensures var s1 := Do(s, LateRelease(w));
      && Possible(s1, Acquire(v, order))
      && w in Do(s1, Acquire(v, order)).inside && v in Do(s1, Acquire(v, order)).inside
  {
    assert !Held(Do(s, LateRelease(w)));
  }

  /** States and the steps between them. */
  ghost predicate IsPath(path: seq<Hall>, steps: seq<Step>) {
    && |path| == |steps| + 1
    && forall i :: 0 <= i < |steps| ==> Possible(path[i], steps[i]) && path[i + 1] == Do(path[i], steps[i])
  }

  lemma Onward(path: seq<Hall>, steps: seq<Step>, step: Step) returns (path': seq<Hall>, steps': seq<Step>)
    requires IsPath(path, steps) && Possible(path[|steps|], step)
    ensures IsPath(path', steps') && steps' == steps + [step] && path' == path + [Do(path[|steps|], step)]
  {
    steps' := steps + [step];
    path' := path + [Do(path[|steps|], step)];
    forall i | 0 <= i < |steps'| ensures Possible(path'[i], steps'[i]) && path'[i + 1] == Do(path'[i], steps'[i]) {
      if i < |steps| {
        assert path'[i] == path[i] && path'[i + 1] == path[i + 1] && steps'[i] == steps[i];
      }
    }
  }

  lemma Ticks(path: seq<Hall>, steps: seq<Step>, n: nat) returns (path': seq<Hall>, steps': seq<Step>)
    requires IsPath(path, steps)
    ensures IsPath(path', steps') && |steps'| == |steps| + n && path'[0] == path[0]
    ensures path'[|steps'|] == path[|steps|].(now := path[|steps|].now + n)
    decreases n
  {
    path', steps' := path, steps;
    if n > 0 {
      path', steps' := Onward(path, steps, Tick);
      path', steps' := Ticks(path', steps', n - 1);
    }
  }

  /** Such a run: a worker's guard is dropped, the lock expires before the background release comes, the
      worker acquires the lock again, and now the release comes. */
  lemma LateReleaseRun(s: Hall, a: Order, b: Order, c: Order) returns (path: seq<Hall>, steps: seq<Step>)
    requires s.lease.None? && s.inside == map[] && s.drops == multiset{}
    requires NewOrder(a) && NewOrder(b) && NewOrder(c) && a.id != b.id && b.id != c.id && a.id != c.id
    requires a.id !in s.orders && b.id !in s.orders && c.id !in s.orders
    ensures IsPath(path, steps) && path[0] == s
    ensures 1 in path[|steps|].inside && 2 in path[|steps|].inside
  {
    path, steps := DroppedAndExpired(s, a);
    path, steps := BothEnter(path, steps, b, c);
  }

  lemma DroppedAndExpired(s: Hall, a: Order) returns (path: seq<Hall>, steps: seq<Step>)
    requires s.lease.None? && s.inside == map[] && s.drops == multiset{} && NewOrder(a) && a.id !in s.orders
    ensures IsPath(path, steps) && path[0] == s
    ensures var last := path[|steps|];
      && !Held(last) && last.inside == map[] && last.drops == multiset{1}
      && last.orders == s.orders[a.id := a]
  {
    path, steps := Onward([s], [], Acquire(1, a));
    path, steps := Onward(path, steps, Drop(1));
    var dropped := path[|steps|];
    assert dropped.lease == Some(Lease(1, s.now + TTL)) && dropped.inside == map[] && dropped.drops == multiset{1};
    path, steps := Ticks(path, steps, TTL);
  }

  lemma BothEnter(path: seq<Hall>, steps: seq<Step>, b: Order, c: Order) returns (path': seq<Hall>, steps': seq<Step>)
    requires IsPath(path, steps)
    requires var last := path[|steps|];
      && !Held(last) && last.inside == map[] && last.drops == multiset{1}
      && b.id !in last.orders && c.id !in last.orders
    requires NewOrder(b) && NewOrder(c) && b.id != c.id
    ensures IsPath(path', steps') && path'[0] == path[0]
    ensures 1 in path'[|steps'|].inside && 2 in path'[|steps'|].inside
  {
    path', steps' := Onward(path, steps, Acquire(1, b));
    assert 1 in path'[|steps'|].inside && 1 in path'[|steps'|].drops;
    path', steps' := Onward(path', steps', LateRelease(1));
    assert 1 in path'[|steps'|].inside && !Held(path'[|steps'|]);
    path', steps' := Onward(path', steps', Acquire(2, c));
  }

  // ---- Fence tokens -----------------------------------------------------------------------------------

  ghost predicate Increasing(tokens: seq<nat>, fence: nat) {
    && (forall i :: 0 <= i < |tokens| ==> tokens[i] <= fence)
    && (forall i, j :: 0 <= i < j < |tokens| ==> tokens[i] < tokens[j])
  }

  predicate Counting(steps: seq<Step>) { forall i :: 0 <= i < |steps| ==> steps[i].Count? ==> !steps[i].failed }

  /** As long as the counter answers, the tokens strictly increase. */
  lemma {:induction false} FenceIncreases(s: Hall, steps: seq<Step>)
    requires Increasing(s.tokens, s.fence) && Reachable(s, steps) && Counting(steps)
    ensures Increasing(DoAll(s, steps).tokens, DoAll(s, steps).fence)
    decreases steps
  {
    if steps != [] {
      FenceIncreases(Do(s, steps[0]), steps[1..]);
    }
  }

  /** If the counter does not answer, the guard gets token 1 all the same: the tokens go on
      increasing only if that was the first. */
  lemma FailedCount(s: Hall, w: nat)
    requires Increasing(s.tokens, s.fence) && Possible(s, Count(w, true))
    requires forall i :: 0 <= i < |s.tokens| ==> s.tokens[i] >= 1
    ensures var after := Do(s, Count(w, true)).tokens;
      (forall i :: 0 <= i < |s.tokens| ==> s.tokens[i] < after[|s.tokens|]) <==> s.tokens == []
  {
    assert Do(s, Count(w, true)).tokens[|s.tokens|] == 1;
    if s.tokens != [] {
      assert s.tokens[0] >= 1;
    }
  }

  // ---- Fills against an order ---------------------------------------------------------------------------

  function Left(b: Books, id: OrderId): int { LeftIn(b.bids, id) + LeftIn(b.asks, id) }

  /** Both sides are valid, and every order in them came up. */
  ghost predicate Whole(b: Books, orders: map<OrderId, Order>) {
    && ValidSide(Buy, b.bids) && ValidSide(Sell, b.asks) && Ids(b.bids) !! Ids(b.asks)
    && b.AllIds() <= orders.Keys
  }

  /** What an order traded and what it has left is at most its quantity. */
  ghost predicate Paid(b: Books, orders: map<OrderId, Order>, trades: seq<Trade>) {
    && (forall id :: id in orders ==> Traded(trades, id) + Left(b, id) <= orders[id].quantity)
    && (forall id :: id !in orders ==> Traded(trades, id) == 0)
  }

  /** The one inside: nothing traded under its order yet, and its writes are those of its match. */
  ghost predicate InCycle(s: Hall, k: Section) {
    && NewOrder(k.order) && k.order.id in s.orders && s.orders[k.order.id] == k.order
    && Traded(s.trades, k.order.id) == 0
    && (!k.Working? ==> k.order.id !in s.books.AllIds())
    && (k.Working? ==>
          var writes := Writes(ResultFor(k.loaded, k.order));
          && Whole(k.loaded, s.orders) && Paid(k.loaded, s.orders, s.trades) && k.order.id !in k.loaded.AllIds()
          && k.written <= |writes|
          && Ids(s.books.Of(k.order.side)) <= Ids(k.loaded.Of(k.order.side)) + {k.order.id}
          && Ids(s.books.Of(k.order.side.Opposite())) <= Ids(k.loaded.Of(k.order.side.Opposite()))
          && ApplyWrites(s.books, writes[k.written..]) == Submit(k.loaded, k.order))
  }

  ghost predicate Settled(s: Hall) {
    && Exclusive(s) && Whole(s.books, s.orders) && Paid(s.books, s.orders, s.trades)
    && forall w :: w in s.inside ==> InCycle(s, s.inside[w])
  }

  /** A match trades under an id at most what the side no longer has left of it, and under its own
      id what the order lost. */
  lemma MatchTraded(order: Order, book: seq<Order>, id: OrderId)
    requires ValidSide(order.side.Opposite(), book) && NewOrder(order) && order.id !in Ids(book)
    ensures var o := Match(order, book);
      if id == order.id then Traded(o.result.trades, id) == order.remaining - o.result.incoming.remaining
      else Traded(o.result.trades, id) + LeftIn(Live(o.book), id) <= LeftIn(book, id)
  {
    ValidFacts(order.side.Opposite(), book);
    ValidIsDistinct(order.side.Opposite(), book);
    if FokRejects(order, book) {
      LiveOfOpen(book);
    } else {
      WalkTraded(order, book, id);
      WalkedLeft(order, book, id);
    }
  }

  /** What is live after the walk has at most what the walk left. */
  lemma WalkedLeft(order: Order, book: seq<Order>, id: OrderId)
    requires order.remaining >= 0 && AllOpen(book) && Distinct(book)
    ensures var after := Walk(order, book).book;
      && LeftIn(Live(after), id) <= LeftIn(after, id)
      && (id !in Ids(book) ==> LeftIn(after, id) == 0)
  {
    var after := Walk(order, book).book;
    WalkConserves(order, book);
    WalkKeeps(order, book);
    KeptIds(book, after);
    LiveFinds(after, id);
    FindFacts(after, id);
    LeftKept(book, after, id);
  }

  /** A submission trades under every id at most what is no longer left of it. */
  lemma SubmitTraded(b: Books, orders: map<OrderId, Order>, order: Order, id: OrderId)
    requires Whole(b, orders) && NewOrder(order) && order.id !in b.AllIds()
    ensures Traded(ResultFor(b, order).trades, id) + Left(Submit(b, order), id)
         <= Left(b, id) + if id == order.id then order.quantity else 0
  {
    var side := order.side.Opposite();
    MatchTraded(order, b.Of(side), id);
    SubmitLeft(b, order, id);
  }

  /** What is left under an id on the order's own side, with the order itself resting there or not. */
  lemma OwnLeft(side: Side, own: seq<Order>, rest: Order, id: OrderId)
    requires ValidSide(side, own)
    ensures LeftIn(SortedBook.Upsert(own, rest), id) == if id == rest.id then rest.remaining else LeftIn(own, id)
  {
    FindUpserted(side, own, rest, id);
  }

  lemma OppositeLeft(order: Order, book: seq<Order>, id: OrderId)
    requires ValidSide(order.side.Opposite(), book) && NewOrder(order) && order.id !in Ids(book)
    ensures var o := Match(order, book);
      && ApplyUpdates(book, o.result.bookUpdates) == Live(o.book)
      && (id == order.id ==> LeftIn(Live(o.book), id) == 0)
      && o.result.incoming.id == order.id && o.result.incoming.remaining >= 0
  {
    ValidFacts(order.side.Opposite(), book);
    ReportsAgree(order, book);
    Conservation(order, book);
    FindFacts(Live(Match(order, book).book), id);
  }

  lemma SubmitLeft(b: Books, order: Order, id: OrderId)
    requires ValidSide(Buy, b.bids) && ValidSide(Sell, b.asks) && NewOrder(order) && order.id !in b.AllIds()
    ensures var o := Match(order, b.Of(order.side.Opposite()));
      if id == order.id then Left(Submit(b, order), id) <= o.result.incoming.remaining && Left(b, id) == 0
      else Left(Submit(b, order), id) == LeftIn(Live(o.book), id) + LeftIn(b.Of(order.side), id)
  {
    OppositeLeft(order, b.Of(order.side.Opposite()), id);
    OwnLeft(order.side, b.Of(order.side), Incoming(b, order), id);
    FindFacts(b.bids, id);
    FindFacts(b.asks, id);
  }

  lemma {:induction false} LeftKept(before: seq<Order>, after: seq<Order>, id: OrderId)
    requires |before| == |after|
    requires forall i :: 0 <= i < |before| ==> after[i].id == before[i].id && after[i].remaining >= 0
    ensures LeftIn(after, id) >= 0
  {
    if before != [] {
      LeftKept(before[1..], after[1..], id);
    }
  }

  // ---- The writes of a cycle -----------------------------------------------------------------------------

  lemma {:induction false} WritesOneSide(b: Books, side: Side, updates: seq<Order>, rest: seq<Order>)
    requires forall i :: 0 <= i < |updates| ==> updates[i].side == side
    ensures ApplyWrites(b, updates + rest) == ApplyWrites(b.With(side, ApplyUpdates(b.Of(side), updates)), rest)
    decreases updates
  {
    if updates == [] {
      assert updates + rest == rest;
    } else {
      assert (updates + rest)[0] == updates[0] && (updates + rest)[1..] == updates[1..] + rest;
      WritesOneSide(ApplyWrite(b, updates[0]), side, updates[1..], rest);
    }
  }

  /** Written one by one, undisturbed, the writes of a cycle are the submission. */
  lemma WritesAreSubmit(b: Books, orders: map<OrderId, Order>, order: Order)
    requires Whole(b, orders) && NewOrder(order)
    ensures ApplyWrites(b, Writes(ResultFor(b, order))) == Submit(b, order)
  {
    var side, result := order.side.Opposite(), ResultFor(b, order);
    var last := if result.incoming.IsOpen() then [result.incoming] else [];
    UpdateFacts(order, b.Of(side));
    ValidFacts(side, b.Of(side));
    Conservation(order, b.Of(side));
    WritesOneSide(b, side, result.bookUpdates, last);
    assert last != [] ==> last[1..] == [];
  }

  /** One write of a cycle on the loaded books: of an order that was there, with no more left than
      then, or of the resting order. */
  ghost predicate WriteOf(loaded: Books, order: Order, u: Order) {
    && (u.IsClosed() || MayRest(u.side, u))
    && (if u.side == order.side then u.id == order.id && u.remaining <= order.quantity
        else u.id in Ids(loaded.Of(u.side)) && u.remaining <= LeftIn(loaded.Of(u.side), u.id))
  }

  lemma WriteFacts(b: Books, orders: map<OrderId, Order>, order: Order, i: nat)
    requires Whole(b, orders) && NewOrder(order) && i < |Writes(ResultFor(b, order))|
    ensures WriteOf(b, order, Writes(ResultFor(b, order))[i])
  {
    var side, result := order.side.Opposite(), ResultFor(b, order);
    var book := b.Of(side);
    UpdateFacts(order, book);
    UpdatesMayRest(order, book);
    ValidFacts(side, book);
    ValidIsDistinct(side, book);
    Conservation(order, book);
    if i < |result.bookUpdates| {
      UpdatesArePrefix(order, book);
      assert OnlyFilled(book[i], Match(order, book).book[i]);
      FoundAt(book, i);
    } else {
      RemainderMayRest(b, order);
    }
  }

  lemma UpdateKeepsValid(side: Side, book: seq<Order>, u: Order)
    requires ValidSide(side, book) && (u.IsClosed() || MayRest(side, u))
    ensures ValidSide(side, ApplyUpdate(book, u)) && Ids(ApplyUpdate(book, u)) <= Ids(book) + {u.id}
    ensures u.IsClosed() ==> Ids(ApplyUpdate(book, u)) <= Ids(book)
  {
    RemoveFacts(side, book, u.id);
    if !u.IsClosed() {
      InsertFacts(side, RemoveId(book, u.id), u);
    }
  }

  /** A write keeps the books whole. */
  lemma WriteKeepsWhole(b: Books, loaded: Books, orders: map<OrderId, Order>, order: Order, u: Order)
    requires Whole(b, orders) && Whole(loaded, orders) && WriteOf(loaded, order, u)
    requires order.id in orders && order.id !in loaded.AllIds()
    requires Ids(b.Of(order.side)) <= Ids(loaded.Of(order.side)) + {order.id}
    requires Ids(b.Of(order.side.Opposite())) <= Ids(loaded.Of(order.side.Opposite()))
    ensures var after := ApplyWrite(b, u);
      && Whole(after, orders)
      && Ids(after.Of(order.side)) <= Ids(loaded.Of(order.side)) + {order.id}
      && Ids(after.Of(order.side.Opposite())) <= Ids(loaded.Of(order.side.Opposite()))
  {
    UpdateKeepsValid(u.side, b.Of(u.side), u);
  }

  /** It leaves no more of any order than the loaded books or the current ones. */
  lemma WriteLeft(b: Books, loaded: Books, orders: map<OrderId, Order>, order: Order, u: Order, id: OrderId)
    requires Whole(b, orders) && Whole(loaded, orders) && WriteOf(loaded, order, u)
    requires order.id !in loaded.AllIds()
    requires Ids(b.Of(order.side)) <= Ids(loaded.Of(order.side)) + {order.id}
    requires Ids(b.Of(order.side.Opposite())) <= Ids(loaded.Of(order.side.Opposite()))
    ensures Left(ApplyWrite(b, u), id) <= Max(Left(b, id), if id == order.id then Max(order.quantity, 0)
        else Left(loaded, id))
  {
    FindRemoved(b.Of(u.side), u.id, id);
    FindFacts(b.bids, id);
    FindFacts(b.asks, id);
    FindFacts(loaded.bids, id);
    FindFacts(loaded.asks, id);
    ValidFacts(Buy, b.bids);
    ValidFacts(Sell, b.asks);
    ValidFacts(Buy, loaded.bids);
    ValidFacts(Sell, loaded.asks);
    if !u.IsClosed() {
      FindUpserted(u.side, b.Of(u.side), u, id);
    }
  }

  // ---- Every step settles --------------------------------------------------------------------------------

  lemma AcquireKeepsSettled(s: Hall, w: nat, order: Order)
    requires Settled(s) && Possible(s, Acquire(w, order)) && Disciplined(s, Acquire(w, order))
    ensures Settled(Do(s, Acquire(w, order)))
  {
    StepKeepsExclusive(s, Acquire(w, order));
    forall v ensures v !in s.inside {
      assert v in s.inside ==> Held(s);
    }
    FindFacts(s.books.bids, order.id);
    FindFacts(s.books.asks, order.id);
  }

  lemma LoadKeepsSettled(s: Hall, w: nat)
    requires Settled(s) && Possible(s, LoadBook(w))
    ensures Settled(Do(s, LoadBook(w)))
  {
    var k := s.inside[w];
    StepKeepsExclusive(s, LoadBook(w));
    assert InCycle(s, k);
    WritesAreSubmit(s.books, s.orders, k.order);
    var writes := Writes(ResultFor(s.books, k.order));
    assert writes[0..] == writes;
    forall v | v in s.inside ensures v == w {
      assert s.lease.value.owner == v;
    }
  }

  /** The next write of the one inside. */
  lemma WriteKeepsPaid(s: Hall, k: Section, u: Order)
    requires Settled(s) && InCycle(s, k) && k.Working? && WriteOf(k.loaded, k.order, u)
    ensures Whole(ApplyWrite(s.books, u), s.orders) && Paid(ApplyWrite(s.books, u), s.orders, s.trades)
    ensures Ids(ApplyWrite(s.books, u).Of(k.order.side)) <= Ids(k.loaded.Of(k.order.side)) + {k.order.id}
    ensures Ids(ApplyWrite(s.books, u).Of(k.order.side.Opposite())) <= Ids(k.loaded.Of(k.order.side.Opposite()))
  {
    WriteKeepsWhole(s.books, k.loaded, s.orders, k.order, u);
    forall id | id in s.orders
      ensures Traded(s.trades, id) + Left(ApplyWrite(s.books, u), id) <= s.orders[id].quantity
    {
      WriteLeft(s.books, k.loaded, s.orders, k.order, u, id);
    }
  }

  lemma WriteKeepsCycle(s: Hall, k: Section, s': Hall)
    requires InCycle(s, k) && k.Working? && k.written < |Writes(ResultFor(k.loaded, k.order))|
    requires s'.books == ApplyWrite(s.books, Writes(ResultFor(k.loaded, k.order))[k.written])
    requires s'.orders == s.orders && s'.trades == s.trades
    requires Ids(s'.books.Of(k.order.side)) <= Ids(k.loaded.Of(k.order.side)) + {k.order.id}
    requires Ids(s'.books.Of(k.order.side.Opposite())) <= Ids(k.loaded.Of(k.order.side.Opposite()))
    ensures InCycle(s', k.(written := k.written + 1))
  {
    var writes := Writes(ResultFor(k.loaded, k.order));
    assert writes[k.written..][0] == writes[k.written] && writes[k.written..][1..] == writes[k.written + 1..];
  }

  lemma WriteKeepsSettled(s: Hall, w: nat)
    requires Settled(s) && Possible(s, Write(w))
    ensures Settled(Do(s, Write(w)))
  {
    var k := s.inside[w];
    StepKeepsExclusive(s, Write(w));
    assert InCycle(s, k);
    var u := Writes(ResultFor(k.loaded, k.order))[k.written];
    WriteFacts(k.loaded, s.orders, k.order, k.written);
    WriteKeepsPaid(s, k, u);
    WriteKeepsCycle(s, k, Do(s, Write(w)));
    forall v | v in s.inside ensures v == w {
      assert s.lease.value.owner == v;
    }
  }

  lemma ReleaseKeepsSettled(s: Hall, w: nat)
    requires Settled(s) && Possible(s, Release(w))
    ensures Settled(Do(s, Release(w)))
  {
    var k, s' := s.inside[w], Do(s, Release(w));
    StepKeepsExclusive(s, Release(w));
    assert InCycle(s, k);
    var result := ResultFor(k.loaded, k.order);
    assert s.books == Submit(k.loaded, k.order);
    forall id
      ensures id in s.orders ==> Traded(s'.trades, id) + Left(s.books, id) <= s.orders[id].quantity
      ensures id !in s.orders ==> Traded(s'.trades, id) == 0
    {
      IdTradedConcat(s.trades, result.trades, id);
      SubmitTraded(k.loaded, s.orders, k.order, id);
      NotTraded(k.loaded, s.orders, k.order, id);
      FindFacts(k.loaded.bids, id);
      FindFacts(k.loaded.asks, id);
    }
    forall v | v in s.inside ensures v == w {
      assert s.lease.value.owner == v;
    }
  }

  /** An id that never came up is in no trade. */
  lemma NotTraded(b: Books, orders: map<OrderId, Order>, order: Order, id: OrderId)
    requires Whole(b, orders) && NewOrder(order) && order.id in orders && order.id !in b.AllIds()
    ensures id !in orders ==> Traded(ResultFor(b, order).trades, id) == 0
  {
    var book := b.Of(order.side.Opposite());
    FindFacts(book, id);
    ValidFacts(order.side.Opposite(), book);
    ValidIsDistinct(order.side.Opposite(), book);
    if id !in orders && !FokRejects(order, book) {
      WalkTraded(order, book, id);
      WalkKeepsFound(order, book, id);
    }
  }

  lemma StepKeepsSettled(s: Hall, step: Step)
    requires Settled(s) && Possible(s, step) && Disciplined(s, step)
    ensures Settled(Do(s, step))
  {
    match step {
      case Acquire(w, order) => AcquireKeepsSettled(s, w, order);
      case LoadBook(w) => LoadKeepsSettled(s, w);
      case Write(w) => WriteKeepsSettled(s, w);
      case Release(w) => ReleaseKeepsSettled(s, w);
      case _ =>
        StepKeepsExclusive(s, step);
        forall v | v in Do(s, step).inside ensures InCycle(Do(s, step), Do(s, step).inside[v]) {
          assert v in s.inside && InCycle(s, s.inside[v]);
        }
    }
  }

  lemma {:induction false} RunKeepsSettled(s: Hall, steps: seq<Step>)
    requires Settled(s) && Reachable(s, steps)
    ensures Settled(DoAll(s, steps))
    decreases steps
  {
    if steps != [] {
      StepKeepsSettled(s, steps[0]);
      RunKeepsSettled(Do(s, steps[0]), steps[1..]);
    }
  }

  /** Over every run of lock-protected cycles, crashes included, no order ever trades more than its
      quantity: what it traded and what it has left is at most that. */
  lemma NeverOverfilled(s0: Hall, steps: seq<Step>, id: OrderId)
    requires Opening(s0) && Reachable(s0, steps) && id in DoAll(s0, steps).orders
    ensures var s := DoAll(s0, steps);
      Traded(s.trades, id) + Left(s.books, id) <= s.orders[id].quantity && Traded(s.trades, id) <= s.orders[id].quantity
  {
    RunKeepsSettled(s0, steps);
    var s := DoAll(s0, steps);
    FindFacts(s.books.bids, id);
    FindFacts(s.books.asks, id);
    ValidFacts(Buy, s.books.bids);
    ValidFacts(Sell, s.books.asks);
  }

  // ---- The lock itself ---------------------------------------------------------------------------------

  const MAX_RETRIES := 20

  /** A guard, with whether it was released explicitly. */
  class Guard {
    const worker: nat
    const token: nat
    var released: bool

    constructor (worker: nat, token: nat)
      ensures this.worker == worker && this.token == token && !released
    {
      this.worker, this.token, released := worker, token, false;
    }
  }

  /** The lock key and the fence counter of one pair, and the releases of dropped guards that are
      spawned but have not run. */
  class PairKeys {
    var lease: Option<Lease>
    var fence: nat
    var spawned: seq<nat>

    /** Tries at the given times.  Between tries other workers have their way: `keys` is what they leave
        in the key by each try, `counted` how often they count the fence meanwhile.  Takes the lock at
        the first try that finds it free, and gives up only if every try finds it held.  If the counter
        does not answer, the token is 1. */
    method AcquireLock(worker: nat, clock: seq<nat>, keys: seq<Option<Lease>>, counted: nat, answers: bool)
        returns (guard: Option<Guard>)
      requires |clock| == |keys| == 20
      modifies this
      ensures spawned == old(spawned)
      ensures guard.None? <==> forall i :: 0 <= i < 20 ==> HeldAt(keys[i], clock[i])
      ensures guard.None? ==> lease == keys[19] && fence == old(fence) + counted
      ensures guard.Some? ==>
        && fresh(guard.value) && guard.value.worker == worker && !guard.value.released
        && fence == old(fence) + counted + (if answers then 1 else 0)
        && guard.value.token == (if answers then fence else 1)
        && exists i :: 0 <= i < 20 && lease == Some(Lease(worker, clock[i] + 5))
             && !HeldAt(keys[i], clock[i]) && forall j :: 0 <= j < i ==> HeldAt(keys[j], clock[j])
    {
      fence := fence + counted;
      for attempt := 0 to MAX_RETRIES
        invariant fence == old(fence) + counted && spawned == old(spawned)
        invariant attempt > 0 ==> lease == keys[attempt - 1]
        invariant forall j :: 0 <= j < attempt ==> HeldAt(keys[j], clock[j])
      {
        lease := keys[attempt];
        if !HeldAt(lease, clock[attempt]) {
          lease := Some(Lease(worker, clock[attempt] + TTL));
          var token := 1;
          if answers {
            fence := fence + 1;
            token := fence;
          }
          var g := new Guard(worker, token);
          return Some(g);
        }
      }
      guard := None;
    }

    /** Deletes the key if its value is the worker's id. */
    method ReleaseLock(worker: nat, now: nat) returns (deleted: bool)
      modifies this`lease
      ensures deleted <==> HeldAt(old(lease), now) && old(lease).value.owner == worker
      ensures lease == if deleted then None else old(lease)
    {
      deleted := HeldAt(lease, now) && lease.value.owner == worker;
      if deleted {
        lease := None;
      }
    }

    method ReleaseGuard(guard: Guard, now: nat)
      modifies this`lease, guard
      ensures guard.released
      ensures lease == if HeldAt(old(lease), now) && old(lease).value.owner == guard.worker then None else old(lease)
    {
      guard.released := true;
      var _ := ReleaseLock(guard.worker, now);
    }

    /** Dropping a guard spawns a release, unless it was released already. */
    method DropGuard(guard: Guard)
      modifies this`spawned
      ensures spawned == if guard.released then old(spawned) else old(spawned) + [guard.worker]
    {
      if guard.released {
        return;
      }
      spawned := spawned + [guard.worker];
    }

    /** A spawned release runs, whenever its turn comes and whoever holds the lock by then. */
    method RunSpawned(i: nat, now: nat)
      requires i < |spawned|
      modifies this`lease, this`spawned
      ensures spawned == old(spawned[..i] + spawned[i + 1..])
      ensures lease == if HeldAt(old(lease), now) && old(lease).value.owner == old(spawned[i]) then None else old(lease)
    {
      var worker := spawned[i];
      spawned := spawned[..i] + spawned[i + 1..];
      var _ := ReleaseLock(worker, now);
    }
  }
}
