/** While hashes are written ahead only for ids in neither set, every step of the optimistic protocol
    keeps the store in step with submitting the committed orders one after the other; and a run with
    a partial fill after which it is not.  (crates/shared/src/cache.rs) */
module OccSerial {
  import opened Types
  import opened Engine
  import opened MatchLaws
  import opened EquivalenceLaws
  import opened SortedBook
  import opened Books
  import opened Recovery
  import opened Store
  import opened Occ

  /** The books after the committed orders, submitted one by one in commit order. */
  function Serial(b: Books, log: seq<Commit>): Books
    decreases log
  {
    if log == [] then b else Submit(Serial(b, log[..|log| - 1]), log[|log| - 1].order)
  }

  /** The step writes ahead only what is in neither set. */
  predicate Quiet(s: System, step: Occ.Step) {
    step.WriteHash? && Occ.Enabled(s, step) ==>
      var k := s.workers[step.w];
      k.Ahead()[k.written].id !in Members(s.store.bids) + Members(s.store.asks)
  }

  /** A worker writes only after it has loaded. */
  predicate LoadsFirst(k: Worker) { k.written > 0 ==> k.Loaded() }

  /** While the version has not moved, a worker has the hashes as they are; what it wrote ahead is
      its own resting order. */
  ghost predicate Mirrors(k: Worker, st: Store) {
    && LoadsFirst(k)
    && (k.ids.Some? && k.version == st.version && k.read <= |k.ids.value| ==>
          && k.orders == Load(st.hashes, k.ids.value[..k.read])
          && (k.written > 0 ==>
                && Live(k.Result().bookUpdates) == []
                && RestingOf(k.Result()).Some?
                && RowAt(st.hashes, k.order.id) == RestingOf(k.Result())))
  }

  ghost predicate InStep(s: System, b: Books) {
    && Safe(s)
    && Represents(s.store, b) && ValidBooks(b)
    && forall w :: w in s.workers ==> Mirrors(s.workers[w], s.store)
  }

  lemma {:induction false} EntryMembers(book: seq<Order>)
    ensures Members(Entries(book)) == Ids(book)
  {
    if book != [] {
      EntryMembers(book[1..]);
      assert Entries(book)[1..] == Entries(book[1..]);
    }
  }

  lemma {:induction false} LoadSnoc(hashes: Hashes, ids: seq<OrderId>, id: OrderId)
    ensures Load(hashes, ids + [id]) == Load(hashes, ids) + if id in hashes then [hashes[id]] else []
  {
    if ids == [] {
      assert ids + [id] == [id] && [id][1..] == [];
    } else {
      assert (ids + [id])[0] == ids[0] && (ids + [id])[1..] == ids[1..] + [id];
      LoadSnoc(hashes, ids[1..], id);
    }
  }

  lemma {:induction false} LoadElsewhere(hashes: Hashes, ids: seq<OrderId>, u: Order)
    requires u.id !in ids
    ensures Load(hashes[u.id := u], ids) == Load(hashes, ids)
  {
    if ids != [] {
      LoadElsewhere(hashes, ids[1..], u);
    }
  }

  // ---- Steps that do not commit ------------------------------------------------------------------

  lemma ReadKeepsMirrors(k: Worker, st: Store)
    requires k.ids.Some? && k.read < |k.ids.value| && Mirrors(k, st)
    ensures Mirrors(HashRead(k, st.hashes), st)
  {
    var ids := k.ids.value;
    assert ids[..k.read + 1] == ids[..k.read] + [ids[k.read]];
    LoadSnoc(st.hashes, ids[..k.read], ids[k.read]);
  }

  /** Another worker's hash, in neither set. */
  lemma ElsewhereMirrors(k: Worker, st: Store, seen: map<OrderId, Side>, u: Order)
    requires Mirrors(k, st) && Reads(k, seen) && Current(k, st) && Tame(st, seen)
    requires u.id !in Members(st.bids) + Members(st.asks) && u.id != k.order.id
    ensures Mirrors(k, st.(hashes := st.hashes[u.id := u]))
  {
    if k.ids.Some? && k.version == st.version {
      var ids := k.ids.value;
      RangeFacts(st.Of(k.order.side.Opposite()), Bound(k.order));
      assert u.id !in ids[..k.read];
      LoadElsewhere(st.hashes, ids[..k.read], u);
    }
  }

  /** The worker's own write ahead. */
  lemma OwnMirrors(k: Worker, st: Store, seen: map<OrderId, Side>)
    requires Mirrors(k, st) && Reads(k, seen) && Current(k, st) && Tame(st, seen)
    requires k.Loaded() && k.written < |k.Ahead()|
    requires k.Ahead()[k.written].id !in Members(st.bids) + Members(st.asks)
    ensures var u := k.Ahead()[k.written];
      Mirrors(k.(written := k.written + 1), st.(hashes := st.hashes[u.id := u]))
  {
    var u := k.Ahead()[k.written];
    if k.version == st.version {
      var ids := k.ids.value;
      RangeFacts(st.Of(k.order.side.Opposite()), Bound(k.order));
      AheadAt(k, seen, k.written);
      assert Live(k.Result().bookUpdates) == [];
      assert u.id !in ids[..k.read];
      LoadElsewhere(st.hashes, ids[..k.read], u);
    }
  }

  lemma HashKeepsRepresents(st: Store, b: Books, u: Order)
    requires Represents(st, b) && u.id !in Members(st.bids) + Members(st.asks)
    ensures Represents(st.(hashes := st.hashes[u.id := u]), b)
  {
    EntryMembers(b.bids);
    EntryMembers(b.asks);
    FindFacts(b.bids, u.id);
    FindFacts(b.asks, u.id);
  }

  lemma OthersMirror(s: System, w: nat, u: Order)
    requires Safe(s) && w in s.workers && s.workers[w].ids.Some?
    requires forall v :: v in s.workers ==> Mirrors(s.workers[v], s.store)
    requires u.id !in Members(s.store.bids) + Members(s.store.asks)
    requires u.id == s.workers[w].order.id || u.id in s.workers[w].ids.value
    ensures forall v :: v in s.workers && v != w ==>
      Mirrors(s.workers[v], s.store.(hashes := s.store.hashes[u.id := u]))
  {
    forall v | v in s.workers && v != w ensures Mirrors(s.workers[v], s.store.(hashes := s.store.hashes[u.id := u])) {
      assert Apart(s.workers[w], s.workers[v]);
      assert Reads(s.workers[v], s.seen) && Current(s.workers[v], s.store);
      ElsewhereMirrors(s.workers[v], s.store, s.seen, u);
    }
  }

  lemma WriteMirrors(s: System, w: nat)
    requires Safe(s) && forall v :: v in s.workers ==> Mirrors(s.workers[v], s.store)
    requires Occ.Enabled(s, WriteHash(w)) && Quiet(s, WriteHash(w))
    ensures forall v :: v in s.workers ==> Mirrors(Do(s, WriteHash(w)).workers[v], Do(s, WriteHash(w)).store)
  {
    var k := s.workers[w];
    assert Reads(k, s.seen) && Current(k, s.store) && Mirrors(k, s.store);
    AheadAt(k, s.seen, k.written);
    OwnMirrors(k, s.store, s.seen);
    OthersMirror(s, w, k.Ahead()[k.written]);
  }

  lemma WriteKeepsInStep(s: System, b: Books, w: nat)
    requires InStep(s, b) && Occ.Enabled(s, WriteHash(w)) && Quiet(s, WriteHash(w))
    ensures InStep(Do(s, WriteHash(w)), b)
  {
    WriteHashKeepsSafe(s, w);
    WriteMirrors(s, w);
    HashKeepsRepresents(s.store, b, s.workers[w].Ahead()[s.workers[w].written]);
  }

  // ---- Commits -------------------------------------------------------------------------------------

  /** A worker whose swap succeeds has matched against the books as they are. */
  lemma SwapMatchesBooks(s: System, b: Books, w: nat)
    requires InStep(s, b) && Occ.Enabled(s, Swap(w)) && Swapped(s, w).Some?
    ensures var k := s.workers[w];
      && NewOrder(k.order) && k.order.id !in b.AllIds()
      && k.Result() == Match(k.order, b.Of(k.order.side.Opposite())).result
      && Live(k.Result().bookUpdates) == []
      && (RestingOf(k.Result()).Some? ==> RowAt(s.store.hashes, k.order.id) == RestingOf(k.Result()))
  {
    var k := s.workers[w];
    var side := k.order.side.Opposite();
    assert Reads(k, s.seen) && Current(k, s.store) && Mirrors(k, s.store) && Pending(k, s);
    assert k.ids.value[..k.read] == k.ids.value;
    EntryMembers(b.bids);
    EntryMembers(b.asks);
    BoundedLoad(k.order, b.Of(side), s.store.hashes, Bound(k.order));
    assert k.written == 0 ==> Live(k.Result().bookUpdates) == [] && RestingOf(k.Result()).None?;
  }

  /** A worker that read before the commit is out of date. */
  lemma OutdatedMirrors(k: Worker, st: Store, after: Store)
    requires LoadsFirst(k) && Current(k, st) && st.version.Some? && after.version == Some(st.version.value + 1)
    ensures Mirrors(k, after)
  {
  }

  /** The store after a successful swap. */
  lemma SwapSubmits(s: System, b: Books, w: nat)
    requires InStep(s, b) && Occ.Enabled(s, Swap(w)) && Swapped(s, w).Some?
    ensures Represents(Swapped(s, w).value, Submit(b, s.workers[w].order)) && ValidBooks(Submit(b, s.workers[w].order))
    ensures s.store.version.Some? && Swapped(s, w).value.version == Some(s.store.version.value + 1)
  {
    var k := s.workers[w];
    SwapMatchesBooks(s, b, w);
    SwapRepresents(s.store, b, k.order, k.Result());
    SubmitKeepsValid(b, k.order);
  }

  lemma AllOutdated(s: System, s': System)
    requires forall v :: v in s.workers ==> LoadsFirst(s.workers[v]) && Current(s.workers[v], s.store)
    requires s.store.version.Some? && s'.store.version == Some(s.store.version.value + 1)
    requires forall v :: v in s'.workers ==> v in s.workers && s'.workers[v] == s.workers[v]
    ensures forall v :: v in s'.workers ==> Mirrors(s'.workers[v], s'.store)
  {
    forall v | v in s'.workers ensures Mirrors(s'.workers[v], s'.store) {
      OutdatedMirrors(s.workers[v], s.store, s'.store);
    }
  }

  lemma SwapKeepsInStep(s: System, b: Books, w: nat)
    requires InStep(s, b) && Occ.Enabled(s, Swap(w))
    ensures InStep(Do(s, Swap(w)), if Swapped(s, w).Some? then Submit(b, s.workers[w].order) else b)
  {
    var s' := Do(s, Swap(w));
    SwapKeepsSafe(s, w);
    if Swapped(s, w).Some? {
      SwapSubmits(s, b, w);
      assert s'.store == Swapped(s, w).value && s'.workers == s.workers - {w};
      AllOutdated(s, s');
    }
  }

  /** A swap that closes whatever it touches and has its resting order in place. */
  lemma SwapRepresents(st: Store, b: Books, order: Order, result: MatchResult)
    requires Represents(st, b) && ValidBooks(b) && NewOrder(order) && order.id !in b.AllIds() && st.version.Some?
    requires result == Match(order, b.Of(order.side.Opposite())).result
    requires Live(result.bookUpdates) == []
    requires RestingOf(result).Some? ==> RowAt(st.hashes, order.id) == RestingOf(result)
    ensures var after := Cas(st, st.version.value, result.bookUpdates, RestingOf(result));
      after.Some? && Represents(after.value, Submit(b, order)) && after.value.version == Some(st.version.value + 1)
  {
    var upserts := Upserts(result.bookUpdates, RestingOf(result));
    MatchKeepsOrder(order, b.Of(order.side.Opposite()));
    assert upserts == if RestingOf(result).Some? then [result.incoming] else [];
    assert upserts != [] ==> upserts[1..] == [];
    CommitRepresents(st, b, order);
  }

  // ---- Other steps --------------------------------------------------------------------------------

  lemma StepKeepsInStep(s: System, b: Books, step: Occ.Step)
    requires InStep(s, b) && Occ.Enabled(s, step) && Quiet(s, step) && !step.Swap?
    ensures InStep(Do(s, step), b) && Do(s, step).log == s.log
  {
    var s' := Do(s, step);
    if step.WriteHash? {
      WriteKeepsInStep(s, b, step.w);
    } else {
      match step {
        case Begin(w, order) => BeginKeepsSafe(s, w, order);
        case ReadVersion(w) => ReadVersionKeepsSafe(s, w);
        case ReadIds(w) => ReadIdsKeepsSafe(s, w);
        case ReadHash(w) => ReadHashKeepsSafe(s, w); ReadKeepsMirrors(s.workers[w], s.store);
      }
      forall v | v in s'.workers ensures Mirrors(s'.workers[v], s'.store) {
        if v in s.workers {
          assert Mirrors(s.workers[v], s.store) && Reads(s.workers[v], s.seen);
        }
      }
    }
  }

  // ---- Partial fills ---------------------------------------------------------------------------------

  /** Writing ahead keeps the books exactly if the id is in neither set, or nothing changes.  A
      partial fill is visible before its commit, and stays if the swap then fails. */
  lemma WriteAheadExactly(s: System, b: Books, w: nat)
    requires Represents(s.store, b) && Occ.Enabled(s, WriteHash(w))
    ensures var u := s.workers[w].Ahead()[s.workers[w].written];
      Represents(Do(s, WriteHash(w)).store, b) <==>
        || u.id !in Members(s.store.bids) + Members(s.store.asks)
        || RowAt(s.store.hashes, u.id) == Some(u)
    ensures Do(s, WriteHash(w)).log == s.log
  {
    var u := s.workers[w].Ahead()[s.workers[w].written];
    EntryMembers(b.bids);
    EntryMembers(b.asks);
    FindFacts(b.bids, u.id);
    FindFacts(b.asks, u.id);
    if u.id !in Members(s.store.bids) + Members(s.store.asks) {
      HashKeepsRepresents(s.store, b, u);
    } else if RowAt(s.store.hashes, u.id) == Some(u) {
      assert s.store.hashes[u.id := u] == s.store.hashes;
    }
  }

  lemma {:induction false} OneMore(s: System, steps: seq<Occ.Step>, step: Occ.Step)
    requires Interleaving(s, steps) && Occ.Enabled(DoAll(s, steps), step)
    ensures Interleaving(s, steps + [step]) && DoAll(s, steps + [step]) == Do(DoAll(s, steps), step)
    decreases steps
  {
    if steps == [] {
      assert steps + [step] == [step] && [step][1..] == [];
    } else {
      assert (steps + [step])[0] == steps[0] && (steps + [step])[1..] == steps[1..] + [step];
      OneMore(Do(s, steps[0]), steps[1..], step);
    }
  }

  const PAIR := Pair(1, 0)
  const MAKER := Order(1, 1, PAIR, Side.Sell, Limit, GTC, Some(100), 3, 3, New, StpNone)
  const TAKER := Order(2, 2, PAIR, Side.Buy, Limit, GTC, Some(100), 2, 2, New, StpNone)
  const OTHER := Order(3, 3, PAIR, Side.Buy, Limit, GTC, Some(50), 1, 1, New, StpNone)

  function Initial(): System {
    System(Store(Some(0), [], [EntryOf(MAKER)], map[1 := MAKER]), map[], map[1 := Side.Sell], [])
  }

  lemma TakerFillsPart(k: Worker)
    requires k.order == TAKER && k.orders == [MAKER]
    ensures k.Ahead() == [Reduce(MAKER, 2)]
  {
    assert [MAKER][1..] == [];
    var next := Next(TAKER, MAKER);
    assert Walk(next, []) == Stay(next, []);
    assert Walk(TAKER, [MAKER]) == Front(TAKER, MAKER, Walk(next, []));
    assert k.Result().bookUpdates == [Reduce(MAKER, 2)] && [Reduce(MAKER, 2)][1..] == [];
    assert Live([Reduce(MAKER, 2)]) == [Reduce(MAKER, 2)];
  }

  lemma OtherRests(k: Worker)
    requires k.order == OTHER && k.orders == []
    ensures k.Result() == MatchResult([], [], OTHER, []) && k.Ahead() == [OTHER]
  {
    assert Walk(OTHER, []) == Stay(OTHER, []);
    assert k.Result() == MatchResult([], [], OTHER, []);
    assert Live([]) == [];
  }

  /** The taker has loaded the maker. */
  function TakerLoaded(): Worker { Worker(TAKER, Some(0), Some([1]), 1, [MAKER], 0) }

  lemma TakerLoads() returns (steps: seq<Occ.Step>)
    ensures Interleaving(Initial(), steps)
    ensures DoAll(Initial(), steps)
         == Initial().(workers := map[0 := TakerLoaded()], seen := map[1 := Side.Sell, 2 := Side.Buy])
  {
    var s0 := Initial();
    var ask := EntryOf(MAKER);
    assert [ask][1..] == [] && Range([ask], Some(100)) == [1];
    steps := [];
    OneMore(s0, steps, Begin(0, TAKER));
    steps := steps + [Begin(0, TAKER)];
    OneMore(s0, steps, ReadVersion(0));
    steps := steps + [ReadVersion(0)];
    OneMore(s0, steps, ReadIds(0));
    steps := steps + [ReadIds(0)];
    var k := Worker(TAKER, Some(0), Some([1]), 0, [], 0);
    assert DoAll(s0, steps).workers[0] == k;
    assert HashRead(k, s0.store.hashes) == TakerLoaded() by {
      assert [] + [MAKER] == [MAKER];
    }
    OneMore(s0, steps, ReadHash(0));
    steps := steps + [ReadHash(0)];
    assert DoAll(s0, steps).workers == map[0 := TakerLoaded()];
    assert DoAll(s0, steps).seen == map[1 := Side.Sell, 2 := Side.Buy];
  }

  /** The taker writes its partial fill ahead, and its swap conflicts. */
  lemma TakerConflicts(s: System) returns (steps: seq<Occ.Step>)
    requires s.workers == map[0 := TakerLoaded()] && s.store.version == Some(1)
    ensures Interleaving(s, steps)
    ensures var s' := DoAll(s, steps);
      && s'.workers == map[0 := Attempt(TAKER)] && s'.log == s.log
      && RowAt(s'.store.hashes, 1) == Some(Reduce(MAKER, 2))
  {
    var k := TakerLoaded();
    TakerFillsPart(k);
    TakerFillsPart(k.(written := 1));
    steps := [];
    OneMore(s, steps, WriteHash(0));
    steps := steps + [WriteHash(0)];
    OneMore(s, steps, Swap(0));
    steps := steps + [Swap(0)];
    assert DoAll(s, steps).workers == map[0 := Attempt(TAKER)];
  }

  /** The taker loads the maker; the other order commits first; the taker writes the partial fill
      ahead, its swap conflicts, and it goes no further: the maker has lost what nobody bought. */
  lemma ConflictKeepsPartialFill() returns (steps: seq<Occ.Step>)
    ensures Interleaving(Initial(), steps)
    ensures Start(Initial()) && Represents(Initial().store, Books([], [MAKER])) && ValidBooks(Books([], [MAKER]))
    ensures var s := DoAll(Initial(), steps);
      && s.workers == map[0 := Attempt(TAKER)]
      && |s.log| == 1 && s.log[0].order == OTHER
      && Submit(Books([], [MAKER]), OTHER).asks == [MAKER]
      && RowAt(s.store.hashes, 1) == Some(Reduce(MAKER, 2))
  {
    InitialFacts();
    OtherLeavesAsks();
    var loads := TakerLoads();
    var s1 := DoAll(Initial(), loads);
    var commits := OtherCommits(s1, TakerLoaded());
    var s2 := DoAll(s1, commits);
    var conflicts := TakerConflicts(s2);
    var both := Joined(Initial(), loads, commits);
    steps := Joined(Initial(), both, conflicts);
  }

  lemma InitialFacts()
    ensures Start(Initial()) && Represents(Initial().store, Books([], [MAKER])) && ValidBooks(Books([], [MAKER]))
  {
    assert [MAKER][1..] == [] && [EntryOf(MAKER)][1..] == [];
    assert Separated(Books([], [MAKER]), 0);
    assert Entries([MAKER]) == [EntryOf(MAKER)];
  }

  lemma OtherLeavesAsks()
    ensures Submit(Books([], [MAKER]), OTHER).asks == [MAKER]
  {
    assert Walk(OTHER, [MAKER]) == Stay(OTHER, [MAKER]);
    assert ApplyUpdates([MAKER], []) == [MAKER];
  }

  /** One run after the other. */
  lemma {:induction false} Joined(s: System, steps: seq<Occ.Step>, more: seq<Occ.Step>) returns (all: seq<Occ.Step>)
    requires Interleaving(s, steps) && Interleaving(DoAll(s, steps), more)
    ensures Interleaving(s, all) && DoAll(s, all) == DoAll(DoAll(s, steps), more)
    decreases more
  {
    if more == [] {
      all := steps;
    } else {
      OneMore(s, steps, more[0]);
      all := Joined(s, steps + [more[0]], more[1..]);
    }
  }

  /** The other order comes and commits. */
  lemma OtherCommits(s: System, k: Worker) returns (steps: seq<Occ.Step>)
    requires s == Initial().(workers := map[0 := k], seen := map[1 := Side.Sell, 2 := Side.Buy])
    ensures Interleaving(s, steps)
    ensures var s' := DoAll(s, steps);
      && s'.workers == map[0 := k] && s'.store.version == Some(1)
      && |s'.log| == 1 && s'.log[0].order == OTHER
  {
    var ask := EntryOf(MAKER);
    assert [ask][1..] == [] && Range([ask], Some(50)) == [];
    steps := [];
    OneMore(s, steps, Begin(1, OTHER));
    steps := steps + [Begin(1, OTHER)];
    OneMore(s, steps, ReadVersion(1));
    steps := steps + [ReadVersion(1)];
    OneMore(s, steps, ReadIds(1));
    steps := steps + [ReadIds(1)];
    var k1 := Worker(OTHER, Some(0), Some([]), 0, [], 0);
    OtherRests(k1);
    OneMore(s, steps, WriteHash(1));
    steps := steps + [WriteHash(1)];
    OtherRests(k1.(written := 1));
    OneMore(s, steps, Swap(1));
    steps := steps + [Swap(1)];
    assert map[0 := k, 1 := k1.(written := 1)] - {1} == map[0 := k];
  }
}
